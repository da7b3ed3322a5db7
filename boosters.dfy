/** The planners' booster rule, written three times in the source
    (`applySimulatingBoosters` in player/SimulatingAStar.kt,
    `applyMasterSimulatingBoosters` and
    `applyNonsimulatingMasterSimulatingBoosters` in player/CloningBot.kt,
    `applyBoosters` in player/SmarterAStarBot.kt): one `when` that yields at
    most one command, and the rule for where the next manipulator goes. The
    copies differ only in which branches they have. */
module Boosters {
  import opened Wrappers
  import opened Maps
  import opened Utils
  import opened Sim

  function MinOf(s: seq<int>): (m: int)
    requires |s| > 0
    ensures m in s && forall x :: x in s ==> m <= x
  {
    if |s| == 1 then s[0]
    else
      var rest := MinOf(s[1..]);
      assert forall x :: x in s ==> x == s[0] || x in s[1..];
      if s[0] <= rest then s[0] else rest
  }

  function MaxOf(s: seq<int>): (m: int)
    requires |s| > 0
    ensures m in s && forall x :: x in s ==> x <= m
  {
    if |s| == 1 then s[0]
    else
      var rest := MaxOf(s[1..]);
      assert forall x :: x in s ==> x == s[0] || x in s[1..];
      if s[0] >= rest then s[0] else rest
  }

  function Xs(offsets: seq<Point>): seq<int>
  {
    seq(|offsets|, i requires 0 <= i < |offsets| => offsets[i].x)
  }

  function Ys(offsets: seq<Point>): seq<int>
  {
    seq(|offsets|, i requires 0 <= i < |offsets| => offsets[i].y)
  }

  /** Where the next manipulator goes. When every offset has the same x
      (the sorted x list has one distinct value) the column grows by one at
      the end nearer to the robot's axis: below the least y if |minY| < |maxY|,
      else above the greatest. Otherwise the row at the least y grows the
      same way along x. The first and last elements of the sorted lists are
      their minimum and maximum. */
  function ExtensionPoint(offsets: seq<Point>): Point
    requires |offsets| > 0
  {
    var minX, maxX := MinOf(Xs(offsets)), MaxOf(Xs(offsets));
    var minY, maxY := MinOf(Ys(offsets)), MaxOf(Ys(offsets));
    if minX == maxX then
      Point(minX, if Abs(minY) < Abs(maxY) then minY - 1 else maxY + 1)
    else
      Point(if Abs(minX) < Abs(maxX) then minX - 1 else maxX + 1, minY)
  }

  /** The sorted x list has one distinct value exactly when all offsets
      share the first one's x. */
  lemma OneColumnIff(offsets: seq<Point>)
    requires |offsets| > 0
    ensures (forall i :: 0 <= i < |offsets| ==> offsets[i].x == offsets[0].x) <==> MinOf(Xs(offsets)) == MaxOf(Xs(offsets))
  {
    var xs := Xs(offsets);
    assert xs[0] in xs;
    if MinOf(xs) == MaxOf(xs) {
      forall i | 0 <= i < |offsets| ensures offsets[i].x == offsets[0].x {
        assert xs[i] in xs;
      }
    } else {
      var a :| 0 <= a < |xs| && xs[a] == MinOf(xs);
      var b :| 0 <= b < |xs| && xs[b] == MaxOf(xs);
      assert offsets[a].x != offsets[0].x || offsets[b].x != offsets[0].x;
    }
  }

  lemma ColumnExtension(offsets: seq<Point>)
    requires |offsets| > 0 && MinOf(Xs(offsets)) == MaxOf(Xs(offsets))
    ensures var p := ExtensionPoint(offsets);
      && p !in offsets
      && p.x == offsets[0].x
      && exists i :: 0 <= i < |offsets| && Adjacent(p, offsets[i])
  {
    var xs, ys := Xs(offsets), Ys(offsets);
    var minY, maxY := MinOf(ys), MaxOf(ys);
    var p := ExtensionPoint(offsets);
    assert xs[0] in xs;
    forall i | 0 <= i < |offsets| ensures offsets[i] != p {
      assert ys[i] in ys;
    }
    var j :| 0 <= j < |ys| && ys[j] == (if Abs(minY) < Abs(maxY) then minY else maxY);
    assert xs[j] in xs;
    assert Adjacent(p, offsets[j]);
  }

  lemma RowExtension(offsets: seq<Point>)
    requires |offsets| > 0 && MinOf(Xs(offsets)) != MaxOf(Xs(offsets))
    ensures var p := ExtensionPoint(offsets);
      (forall i :: 0 <= i < |offsets| ==> p.x != offsets[i].x) && p.y in Ys(offsets)
  {
    var xs := Xs(offsets);
    forall i | 0 <= i < |offsets| ensures offsets[i].x != ExtensionPoint(offsets).x {
      assert xs[i] in xs;
    }
  }

  /** The new offset is never one the robot already has. In the column case
      it extends the column, touching an existing offset; otherwise it lies
      in a column of its own, on the row of an existing offset. */
  lemma ExtensionPointIsNew(offsets: seq<Point>)
    requires |offsets| > 0
    ensures ExtensionPoint(offsets) !in offsets
    ensures var p := ExtensionPoint(offsets);
      (forall i :: 0 <= i < |offsets| ==> offsets[i].x == offsets[0].x) ==>
        p.x == offsets[0].x && exists i :: 0 <= i < |offsets| && Adjacent(p, offsets[i])
    ensures var p := ExtensionPoint(offsets);
      (exists i :: 0 <= i < |offsets| && offsets[i].x != offsets[0].x) ==>
        (forall i :: 0 <= i < |offsets| ==> p.x != offsets[i].x) && p.y in Ys(offsets)
  {
    OneColumnIff(offsets);
    if MinOf(Xs(offsets)) == MaxOf(Xs(offsets)) {
      ColumnExtension(offsets);
    } else {
      RowExtension(offsets);
    }
  }

  /** A CLONE can be used: a CLONING booster is owned and the robot stands
      on a MYSTERY cell. */
  predicate CloneReady(sim: Simulator, idx: nat)
    requires idx < |sim.robots|
  {
    CLONING in sim.boosters && Get(sim.gameMap, sim.robots[idx].pos).booster == Some(MYSTERY)
  }

  /** The shared `when`, with flags for the branches a copy has: CLONE (if
      `clone`), then ATTACH_MANUPULATOR, then USE_FAST_WHEELS (if `wheels`)
      and USE_DRILL (if `drill`), each of the last two only while that
      booster is not already active on the robot. Reading the offsets of a
      robot without manipulators throws in the source; the model requires
      them to be there whenever the attach branch can be reached. */
  function BoosterChoice(sim: Simulator, idx: nat, clone: bool, wheels: bool, drill: bool): seq<Command>
    requires idx < |sim.robots|
    requires MANIPULATOR_EXTENSION in sim.boosters ==> |sim.robots[idx].manipulators| > 0
  {
    var robot := sim.robots[idx];
    if clone && CloneReady(sim, idx) then [CLONE]
    else if MANIPULATOR_EXTENSION in sim.boosters then
      var p := ExtensionPoint(robot.manipulators);
      [ATTACH_MANUPULATOR(p.x, p.y)]
    else if wheels && FAST_WHEELS in sim.boosters && FAST_WHEELS !in robot.activeBoosters then [USE_FAST_WHEELS]
    else if drill && DRILL in sim.boosters && DRILL !in robot.activeBoosters then [USE_DRILL]
    else []
  }

  /** At most one command, chosen by priority: CLONE before
      ATTACH_MANUPULATOR before USE_FAST_WHEELS before USE_DRILL; nothing
      when no enabled branch applies. */
  lemma BoosterChoicePriority(sim: Simulator, idx: nat, clone: bool, wheels: bool, drill: bool)
    requires idx < |sim.robots|
    requires MANIPULATOR_EXTENSION in sim.boosters ==> |sim.robots[idx].manipulators| > 0
    ensures var r := BoosterChoice(sim, idx, clone, wheels, drill);
      var robot := sim.robots[idx];
      && |r| <= 1
      && (r == [CLONE] <==> clone && CloneReady(sim, idx))
      && ((|r| == 1 && r[0].ATTACH_MANUPULATOR?) <==> !(clone && CloneReady(sim, idx)) && MANIPULATOR_EXTENSION in sim.boosters)
      && (r == [USE_FAST_WHEELS] <==>
            !(clone && CloneReady(sim, idx)) && MANIPULATOR_EXTENSION !in sim.boosters
            && wheels && FAST_WHEELS in sim.boosters && FAST_WHEELS !in robot.activeBoosters)
      && (r == [USE_DRILL] <==>
            !(clone && CloneReady(sim, idx)) && MANIPULATOR_EXTENSION !in sim.boosters
            && !(wheels && FAST_WHEELS in sim.boosters && FAST_WHEELS !in robot.activeBoosters)
            && drill && DRILL in sim.boosters && DRILL !in robot.activeBoosters)
  {
  }

  /** Every command the rule yields is legal, so `apply` accepts it; an
      attach adds exactly one manipulator, at an offset the robot did not
      have. */
  lemma BoosterChoiceLegal(sim: Simulator, idx: nat, clone: bool, wheels: bool, drill: bool)
    requires idx < |sim.robots|
    requires MANIPULATOR_EXTENSION in sim.boosters ==> |sim.robots[idx].manipulators| > 0
    ensures var r := BoosterChoice(sim, idx, clone, wheels, drill);
      r != [] ==> Apply(sim, idx, r[0], false).Ok?
    ensures var r := BoosterChoice(sim, idx, clone, wheels, drill);
      var robot := sim.robots[idx];
      r != [] && r[0].ATTACH_MANUPULATOR? ==>
        && Point(r[0].x, r[0].y) !in robot.manipulators
        && Apply(sim, idx, r[0], false).value.robots[idx].manipulators == robot.manipulators + [Point(r[0].x, r[0].y)]
  {
    var r := BoosterChoice(sim, idx, clone, wheels, drill);
    if r != [] {
      ApplyFailsIff(sim, idx, r[0]);
      if r[0].ATTACH_MANUPULATOR? {
        ExtensionPointIsNew(sim.robots[idx].manipulators);
        AttachAddsManipulator(sim, idx, r[0].x, r[0].y);
      }
    }
  }
}
