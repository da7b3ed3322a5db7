/** The command simulator of sim/Simulator.kt: robot poses, the immutable
    world snapshot, and `apply`, which either fails (a SimulatorException)
    or returns the next world. */
module Sim {
  import opened Wrappers
  import opened Utils
  import opened Maps

  // ----- commands and orientation -----

  datatype Command =
    | MOVE_UP | MOVE_DOWN | MOVE_LEFT | MOVE_RIGHT
    | NOOP | TURN_CW | TURN_CCW | USE_FAST_WHEELS | USE_DRILL
    | ATTACH_MANUPULATOR(x: int, y: int)
    | RESET
    | SHIFT_TO(x: int, y: int)
    | CLONE | TICK | NOT_EXIST

  predicate IsMove(c: Command)
  {
    c.MOVE_UP? || c.MOVE_DOWN? || c.MOVE_LEFT? || c.MOVE_RIGHT?
  }

  /** `MoveCommand.dir`. */
  function Dir(c: Command): (d: Point)
    requires IsMove(c)
    ensures Manhattan(Point(0, 0), d) == 1
  {
    match c
    case MOVE_UP => Point(0, 1)
    case MOVE_DOWN => Point(0, -1)
    case MOVE_LEFT => Point(-1, 0)
    case MOVE_RIGHT => Point(1, 0)
  }

  lemma MoveTargetIsNeighbour(p: Point, c: Command)
    requires IsMove(c)
    ensures Plus(p, Dir(c)) in Neighbours(p)
    ensures c == MOVE_UP <==> Plus(p, Dir(c)) == Up(p)
    ensures c == MOVE_DOWN <==> Plus(p, Dir(c)) == Down(p)
    ensures c == MOVE_LEFT <==> Plus(p, Dir(c)) == Left(p)
  {
  }

  datatype Orientation = UP | DOWN | LEFT | RIGHT

  /** The (dx, dy) of an orientation. */
  function Vector(o: Orientation): Point
  {
    match o
    case UP => Point(0, 1)
    case DOWN => Point(0, -1)
    case LEFT => Point(-1, 0)
    case RIGHT => Point(1, 0)
  }

  function OrientationCW(o: Orientation): Orientation
  {
    match o
    case UP => RIGHT
    case DOWN => LEFT
    case LEFT => UP
    case RIGHT => DOWN
  }

  function OrientationCCW(o: Orientation): Orientation
  {
    match o
    case UP => LEFT
    case DOWN => RIGHT
    case LEFT => DOWN
    case RIGHT => UP
  }

  /** Offset rotations used for the manipulators. */
  function OffsetCW(d: Point): Point { Point(d.y, -d.x) }
  function OffsetCCW(d: Point): Point { Point(-d.y, d.x) }

  /** The two orientation tables are inverse, four clockwise turns are the
      identity, and both agree with the offset rotations. */
  lemma OrientationTables(o: Orientation)
    ensures OrientationCCW(OrientationCW(o)) == o && OrientationCW(OrientationCCW(o)) == o
    ensures OrientationCW(OrientationCW(OrientationCW(OrientationCW(o)))) == o
    ensures Vector(OrientationCW(o)) == OffsetCW(Vector(o))
    ensures Vector(OrientationCCW(o)) == OffsetCCW(Vector(o))
  {
  }

  // ----- robots -----

  datatype Robot = Robot(pos: Point, orientation: Orientation, manipulators: seq<Point>,
                         activeBoosters: map<BoosterType, int>)

  /** A robot with the constructor defaults. */
  function DefaultRobot(pos: Point): Robot
  {
    Robot(pos, RIGHT, [Point(1, 1), Point(1, 0), Point(1, -1)], map[])
  }

  function Move(r: Robot, dir: Point): Robot
  {
    r.(pos := Plus(r.pos, dir))
  }

  /** `Robot.rotateCW`: the facing and every manipulator offset turn a
      quarter clockwise together, about the robot, which stays put. */
  function RotateCW(r: Robot): (t: Robot)
    ensures t.pos == r.pos && t.activeBoosters == r.activeBoosters
    ensures |t.manipulators| == |r.manipulators|
  {
    r.(orientation := OrientationCW(r.orientation),
       manipulators := seq(|r.manipulators|, i requires 0 <= i < |r.manipulators| => OffsetCW(r.manipulators[i])))
  }

  /** `Robot.rotateCCW`: the same quarter turn counter-clockwise. */
  function RotateCCW(r: Robot): (t: Robot)
    ensures t.pos == r.pos && t.activeBoosters == r.activeBoosters
    ensures |t.manipulators| == |r.manipulators|
  {
    r.(orientation := OrientationCCW(r.orientation),
       manipulators := seq(|r.manipulators|, i requires 0 <= i < |r.manipulators| => OffsetCCW(r.manipulators[i])))
  }

  /** Turning one way and back restores the robot exactly. */
  lemma RotateRoundTrip(r: Robot)
    ensures RotateCCW(RotateCW(r)) == r
    ensures RotateCW(RotateCCW(r)) == r
  {
    OrientationTables(r.orientation);
    assert RotateCCW(RotateCW(r)).manipulators == r.manipulators;
    assert RotateCW(RotateCCW(r)).manipulators == r.manipulators;
  }

  function AttachManipulator(r: Robot, x: int, y: int): Robot
  {
    r.(manipulators := r.manipulators + [Point(x, y)])
  }

  /** `manipulatorPos`: the absolute cells of the manipulators. */
  function ManipulatorPos(r: Robot): (ps: seq<Point>)
    ensures |ps| == |r.manipulators|
  {
    seq(|r.manipulators|, i requires 0 <= i < |r.manipulators| => Plus(r.pos, r.manipulators[i]))
  }

  /** Manipulator cells follow the robot: moving translates them, turning
      rotates them about the robot, attaching adds exactly the new cell. */
  lemma ManipulatorPosFollowsRobot(r: Robot, dir: Point, x: int, y: int)
    ensures forall i :: 0 <= i < |r.manipulators| ==>
      ManipulatorPos(Move(r, dir))[i] == Plus(ManipulatorPos(r)[i], dir)
    ensures forall i :: 0 <= i < |r.manipulators| ==>
      ManipulatorPos(RotateCW(r))[i] == Plus(r.pos, OffsetCW(Point(ManipulatorPos(r)[i].x - r.pos.x, ManipulatorPos(r)[i].y - r.pos.y)))
    ensures forall i :: 0 <= i < |r.manipulators| ==>
      ManipulatorPos(RotateCCW(r))[i] == Plus(r.pos, OffsetCCW(Point(ManipulatorPos(r)[i].x - r.pos.x, ManipulatorPos(r)[i].y - r.pos.y)))
    ensures ManipulatorPos(AttachManipulator(r, x, y)) == ManipulatorPos(r) + [Plus(r.pos, Point(x, y))]
  {
    assert ManipulatorPos(AttachManipulator(r, x, y)) == ManipulatorPos(r) + [Plus(r.pos, Point(x, y))];
  }

  /** `Robot.tick`: every active counter drops by one; those that reach 0 go. */
  function Tick(r: Robot): (t: Robot)
    ensures t.pos == r.pos && t.orientation == r.orientation && t.manipulators == r.manipulators
    ensures forall k :: k in t.activeBoosters <==> k in r.activeBoosters && r.activeBoosters[k] > 1
    ensures forall k :: k in t.activeBoosters ==> t.activeBoosters[k] == r.activeBoosters[k] - 1
  {
    r.(activeBoosters := map k | k in r.activeBoosters && r.activeBoosters[k] - 1 > 0 :: r.activeBoosters[k] - 1)
  }

  function TickN(r: Robot, n: nat): Robot
  {
    if n == 0 then r else Tick(TickN(r, n - 1))
  }

  /** After n ticks a counter c is still active iff c > n, and then reads c - n. */
  lemma {:induction false} TickNSpec(r: Robot, n: nat)
    requires Positive(r.activeBoosters)
    ensures TickN(r, n).pos == r.pos && TickN(r, n).manipulators == r.manipulators
    ensures forall k :: k in TickN(r, n).activeBoosters <==> k in r.activeBoosters && r.activeBoosters[k] > n
    ensures forall k :: k in TickN(r, n).activeBoosters ==> TickN(r, n).activeBoosters[k] == r.activeBoosters[k] - n
  {
    if n > 0 {
      TickNSpec(r, n - 1);
      var prev := TickN(r, n - 1);
      forall k
        ensures k in TickN(r, n).activeBoosters <==> k in r.activeBoosters && r.activeBoosters[k] > n
      {
        if k in r.activeBoosters && r.activeBoosters[k] > n {
          assert k in prev.activeBoosters && prev.activeBoosters[k] > 1;
        }
      }
    }
  }

  function DoCommand(r: Robot, cmd: Command): Robot
  {
    if IsMove(cmd) then Move(r, Dir(cmd))
    else match cmd
      case TURN_CW => RotateCW(r)
      case TURN_CCW => RotateCCW(r)
      case ATTACH_MANUPULATOR(x, y) => AttachManipulator(r, x, y)
      case _ => r
  }

  // ----- the world -----

  datatype Simulator = Simulator(robots: seq<Robot>, gameMap: GameMap, time: int,
                                 boosters: map<BoosterType, int>, freshBoosters: map<BoosterType, int>,
                                 teleports: set<Point>)

  /** A SimulatorException: the message, the acting robot and the map as
      they were before the failing command. */
  datatype SimError = SimError(msg: string, robot: Robot, gameMap: GameMap)

  /** Paints the manipulator cells one after another, each against the map
      as left by the previous ones. */
  function PaintArms(m: GameMap, pos: Point, arms: seq<Point>): GameMap
    decreases |arms|
  {
    if arms == [] then m
    else
      var mp := arms[0];
      var m' := if Get(m, mp).status == EMPTY && Visible(m, pos, mp) then Set(m, mp, Get(m, mp).(status := WRAP)) else m;
      PaintArms(m', pos, arms[1..])
  }

  /** The robot's cell (booster kept) with status WRAP. */
  function PaintRobotCell(m: GameMap, pos: Point): GameMap
  {
    Set(m, pos, Get(m, pos).(status := WRAP))
  }

  function RepaintedMap(m: GameMap, r: Robot): GameMap
  {
    PaintArms(PaintRobotCell(m, r.pos), r.pos, ManipulatorPos(r))
  }

  function Repainted(s: Simulator, idx: nat): Simulator
    requires idx < |s.robots|
  {
    s.(gameMap := RepaintedMap(s.gameMap, s.robots[idx]))
  }

  /** Painting a list of manipulator cells wraps exactly those that are
      empty and visible from the robot; nothing else changes. */
  lemma {:induction false} PaintArmsSpec(m: GameMap, pos: Point, arms: seq<Point>, q: Point)
    ensures Get(PaintArms(m, pos, arms), q) ==
      if q in arms && Get(m, q).status == EMPTY && Visible(m, pos, q) then Get(m, q).(status := WRAP) else Get(m, q)
    ensures PaintArms(m, pos, arms).cells.Keys == m.cells.Keys
    decreases |arms|
  {
    if arms != [] {
      var mp := arms[0];
      var painted := Get(m, mp).status == EMPTY && Visible(m, pos, mp);
      var m' := if painted then Set(m, mp, Get(m, mp).(status := WRAP)) else m;
      PaintArmsSpec(m', pos, arms[1..], q);
      GetSet(m, mp, Get(m, mp).(status := WRAP), q);
      if painted {
        VisibleUnchanged(m, mp, Get(m, mp).(status := WRAP), pos, q);
        assert mp in m.cells;
      }
      assert q in arms <==> q == mp || q in arms[1..];
    }
  }

  /** `repaint`: the robot's cell becomes WRAP keeping its booster (a drilled
      wall included); each manipulator cell that is EMPTY and visible from the
      robot on the map so far becomes WRAP; every other cell is unchanged. */
  lemma RepaintSpec(m: GameMap, r: Robot, q: Point)
    ensures var m1 := PaintRobotCell(m, r.pos);
      Get(RepaintedMap(m, r), q) ==
        if q == r.pos then Get(m, q).(status := WRAP)
        else if q in ManipulatorPos(r) && Get(m, q).status == EMPTY && Visible(m1, r.pos, q) then Get(m, q).(status := WRAP)
        else Get(m, q)
    ensures RepaintedMap(m, r).cells.Keys == m.cells.Keys + {r.pos}
  {
    var m1 := PaintRobotCell(m, r.pos);
    PaintArmsSpec(m1, r.pos, ManipulatorPos(r), q);
    GetSet(m, r.pos, Get(m, r.pos).(status := WRAP), q);
  }

  /** `repaint` as the source runs it: a loop over the manipulator cells
      reassigning the map. */
  method Repaint(s: Simulator, idx: nat) returns (r: Simulator)
    requires idx < |s.robots|
    ensures r == Repainted(s, idx)
  {
    var robot := s.robots[idx];
    var newGameMap := s.gameMap;
    var oldBotCell := Get(newGameMap, robot.pos);
    newGameMap := Set(newGameMap, robot.pos, oldBotCell.(status := WRAP));
    var arms := ManipulatorPos(robot);
    var i := 0;
    while i < |arms|
      invariant 0 <= i <= |arms|
      invariant PaintArms(newGameMap, robot.pos, arms[i..]) == RepaintedMap(s.gameMap, robot)
    {
      var mp := arms[i];
      assert arms[i..][0] == mp && arms[i..][1..] == arms[i + 1..];
      if Get(newGameMap, mp).status == EMPTY {
        var visible := IsVisible(newGameMap, robot.pos, mp);
        if visible {
          newGameMap := Set(newGameMap, mp, Get(newGameMap, mp).(status := WRAP));
        }
      }
      i := i + 1;
    }
    r := s.(gameMap := newGameMap);
  }

  /** The factory `Simulator(robot, map)`: one robot, time 0, empty
      inventories, its cells painted. */
  function Initial(robot: Robot, gameMap: GameMap): (s: Simulator)
    ensures |s.robots| == 1 && s.robots[0] == robot
    ensures s.time == 0 && s.boosters == map[] && s.freshBoosters == map[] && s.teleports == {}
    ensures Get(s.gameMap, robot.pos).status == WRAP
  {
    RepaintSpec(gameMap, robot, robot.pos);
    Repainted(Simulator([robot], gameMap, 0, map[], map[], {}), 0)
  }

  /** `hasSolved`: no explicit cell is EMPTY. */
  predicate HasSolved(s: Simulator)
  {
    forall p :: p in s.gameMap.cells ==> s.gameMap.cells[p].status != EMPTY
  }

  lemma HasSolvedIffNoEmpty(s: Simulator)
    ensures HasSolved(s) <==> forall p :: Get(s.gameMap, p).status != EMPTY
  {
    if HasSolved(s) {
      forall p ensures Get(s.gameMap, p).status != EMPTY {
      }
    } else {
      var p :| p in s.gameMap.cells && s.gameMap.cells[p].status == EMPTY;
      assert Get(s.gameMap, p).status == EMPTY;
    }
  }

  /** `TICK`'s merge: pending boosters added pointwise into the inventory. */
  function Merged(boosters: map<BoosterType, int>, pending: map<BoosterType, int>): map<BoosterType, int>
  {
    map k | k in boosters.Keys + pending.Keys :: Count(boosters, k) + Count(pending, k)
  }

  lemma MergedSpec(boosters: map<BoosterType, int>, pending: map<BoosterType, int>)
    ensures Merged(boosters, pending).Keys == boosters.Keys + pending.Keys
    ensures forall k :: Count(Merged(boosters, pending), k) == Count(boosters, k) + Count(pending, k)
    ensures Positive(boosters) && Positive(pending) ==> Positive(Merged(boosters, pending))
    ensures Merged(boosters, map[]) == boosters
  {
  }

  /** The two merge loops of `TICK`. */
  method MergeFresh(boosters: map<BoosterType, int>, pending: map<BoosterType, int>) returns (merged: map<BoosterType, int>)
    ensures merged == Merged(boosters, pending)
  {
    merged := AddPendingToOwned(boosters, pending);
    merged := AddNewKinds(boosters, pending, merged);
    MergedCharacterised(boosters, pending, merged);
  }

  /** First loop: every kind already owned gains its pending count. */
  method AddPendingToOwned(boosters: map<BoosterType, int>, pending: map<BoosterType, int>) returns (merged: map<BoosterType, int>)
    ensures merged.Keys == boosters.Keys
    ensures forall k :: k in merged ==> merged[k] == Count(boosters, k) + Count(pending, k)
  {
    merged := boosters;
    var todo := boosters.Keys;
    while todo != {}
      invariant todo <= boosters.Keys
      invariant forall k :: k in merged <==> k in boosters
      invariant forall k :: k in merged ==> merged[k] == if k in todo then boosters[k] else boosters[k] + Count(pending, k)
      decreases |todo|
    {
      var k :| k in todo;
      merged := merged[k := boosters[k] + Count(pending, k)];
      todo := todo - {k};
    }
  }

  /** Second loop: kinds only pending are added with their pending count. */
  method AddNewKinds(boosters: map<BoosterType, int>, pending: map<BoosterType, int>, owned: map<BoosterType, int>)
    returns (merged: map<BoosterType, int>)
    requires owned.Keys == boosters.Keys
    requires forall k :: k in owned ==> owned[k] == Count(boosters, k) + Count(pending, k)
    ensures merged.Keys == boosters.Keys + pending.Keys
    ensures forall k :: k in merged ==> merged[k] == Count(boosters, k) + Count(pending, k)
  {
    merged := owned;
    var rest := pending.Keys;
    while rest != {}
      invariant rest <= pending.Keys
      invariant forall k :: k in merged <==> k in owned || (k in pending && k !in rest)
      invariant forall k :: k in merged ==> merged[k] == if k in owned then owned[k] else pending[k]
      decreases |rest|
    {
      var k :| k in rest;
      if k !in merged {
        merged := merged[k := pending[k]];
      }
      rest := rest - {k};
    }
    forall k | k in merged
      ensures merged[k] == Count(boosters, k) + Count(pending, k)
    {
      if k !in owned {
        assert k !in boosters && k in pending;
      }
    }
  }

  /** A map with the union of the keys and the pointwise sums is the merge. */
  lemma MergedCharacterised(boosters: map<BoosterType, int>, pending: map<BoosterType, int>, merged: map<BoosterType, int>)
    requires merged.Keys == boosters.Keys + pending.Keys
    requires forall k :: k in merged ==> merged[k] == Count(boosters, k) + Count(pending, k)
    ensures merged == Merged(boosters, pending)
  {
    MergedSpec(boosters, pending);
    forall k | k in merged
      ensures merged[k] == Merged(boosters, pending)[k]
    {
      assert Count(Merged(boosters, pending), k) == Merged(boosters, pending)[k];
    }
    SameEntries(merged, Merged(boosters, pending));
  }

  lemma SameEntries<K, V>(a: map<K, V>, b: map<K, V>)
    requires a.Keys == b.Keys && forall k :: k in a ==> a[k] == b[k]
    ensures a == b
  {
  }

  // ----- apply -----

  /** The booster picked up at the start of `apply`: any but MYSTERY. */
  function Pickup(m: GameMap, pos: Point): Option<BoosterType>
  {
    var b := Get(m, pos).booster;
    if b.Some? && b.value != MYSTERY then b else None
  }

  /** What the command itself does: fail, keep the world (`return this`,
      only for a nested move), or give the new robot and inventories. */
  datatype Outcome =
    | Die(msg: string)
    | Keep
    | Next(robot: Robot, boosters: map<BoosterType, int>, pending: map<BoosterType, int>,
           teleports: set<Point>, time: int, clone: bool)

  /** The booster spent by USE_DRILL: as written, the fast-wheels count. */
  function DrillSpent(boosters: map<BoosterType, int>): map<BoosterType, int>
  {
    Decremented(boosters, FAST_WHEELS)
  }

  /** The effect of `cmd` on `robot`: a non-nested command fails exactly
      when it is not legal, only the nested half of a move is skipped, and
      only CLONE asks for a clone. */
  function Effect(s: Simulator, robot: Robot, cmd: Command, nested: bool, pending: map<BoosterType, int>): (o: Outcome)
    ensures !nested ==> (o.Next? <==> LegalFor(s, robot, cmd)) && !o.Keep?
    ensures o.Keep? ==> nested && IsMove(cmd)
    ensures o.Next? ==> (o.clone <==> cmd == CLONE)
  {
    var stay := Next(robot, s.boosters, pending, s.teleports, s.time, false);
    if IsMove(cmd) then
      var newPos := Plus(robot.pos, Dir(cmd));
      var target := Get(s.gameMap, newPos).status;
      var hasDrill := DRILL in robot.activeBoosters;
      if target == WALL && !hasDrill then
        (if nested then Keep else Die("Cannot move through wall without a drill"))
      else if target == SUPERWALL then
        (if nested then Keep else Die("Cannot move through outer wall"))
      else stay.(robot := robot.(pos := newPos))
    else match cmd
      case TURN_CW => stay.(robot := RotateCW(robot))
      case TURN_CCW => stay.(robot := RotateCCW(robot))
      case USE_FAST_WHEELS =>
        if FAST_WHEELS !in s.boosters then Die("Cannot use fast wheels")
        else stay.(boosters := Decremented(s.boosters, FAST_WHEELS),
                   robot := robot.(activeBoosters := robot.activeBoosters[FAST_WHEELS := Timer(FAST_WHEELS) + 1]))
      case USE_DRILL =>
        if DRILL !in s.boosters then Die("Cannot use drill")
        else stay.(boosters := DrillSpent(s.boosters),
                   robot := robot.(activeBoosters := robot.activeBoosters[DRILL := Timer(DRILL) + 1]))
      case ATTACH_MANUPULATOR(x, y) =>
        if MANIPULATOR_EXTENSION !in s.boosters then Die("Cannot use manipulator extension")
        else stay.(boosters := Decremented(s.boosters, MANIPULATOR_EXTENSION),
                   robot := AttachManipulator(robot, x, y))
      case RESET =>
        if TELEPORT !in s.boosters then Die("Cannot use teleport")
        else if Get(s.gameMap, robot.pos).booster == Some(MYSTERY) || robot.pos in s.teleports then
          Die("Cannot reset teleport here")
        else stay.(boosters := Decremented(s.boosters, TELEPORT), teleports := s.teleports + {robot.pos})
      case SHIFT_TO(x, y) =>
        if Point(x, y) !in s.teleports then Die("Cannot shift")
        else stay.(robot := robot.(pos := Point(x, y)))
      case CLONE =>
        if CLONING !in s.boosters then Die("Cannot use clone")
        else if Get(s.gameMap, robot.pos).booster != Some(MYSTERY) then Die("Cannot use clone here")
        else stay.(boosters := Decremented(s.boosters, CLONING), clone := true)
      case TICK =>
        stay.(boosters := Merged(s.boosters, pending), pending := map[], time := s.time + 1)
      case _ => stay
  }

  datatype Step = Died(msg: string) | Kept | Stepped(next: Simulator)

  /** One pass of `apply` without the fast-wheels repeat and the trailing
      tick: pickup, the command's effect, replacing robot `idx`, the clone,
      and the repaint. */
  function ApplyStep(s: Simulator, idx: nat, cmd: Command, nested: bool): (r: Step)
    requires idx < |s.robots|
    ensures r.Stepped? ==> |r.next.robots| == |s.robots| + (if cmd == CLONE then 1 else 0)
  {
    var robot := s.robots[idx];
    var picked := Pickup(s.gameMap, robot.pos);
    var map1 := if picked.Some? then Set(s.gameMap, robot.pos, Wrap) else s.gameMap;
    var pending1 := if picked.Some? then Incremented(s.freshBoosters, picked.value) else s.freshBoosters;
    match Effect(s, robot, cmd, nested, pending1)
    case Die(msg) => Died(msg)
    case Keep => Kept
    case Next(robot', boosters', pending', teleports', time', clone) =>
      var robots1 := s.robots[idx := robot'];
      var robots2 := if clone then robots1 + [DefaultRobot(robot'.pos)] else robots1;
      Stepped(Repainted(Simulator(robots2, map1, time', boosters', pending', teleports'), idx))
  }

  function TickRobot(s: Simulator, idx: nat): Simulator
    requires idx < |s.robots|
  {
    s.(robots := s.robots[idx := Tick(s.robots[idx])])
  }

  /** `Simulator.apply(idx, cmd, nested)`. */
  function Apply(s: Simulator, idx: nat, cmd: Command, nested: bool): (r: Result<Simulator, SimError>)
    requires idx < |s.robots|
    ensures r.Ok? ==> |r.value.robots| == |s.robots| + (if cmd == CLONE then 1 else 0)
    ensures r.Err? ==> r.error.robot == s.robots[idx] && r.error.gameMap == s.gameMap
    decreases if nested then 0 else 1
  {
    match ApplyStep(s, idx, cmd, nested)
    case Died(msg) => Err(SimError(msg, s.robots[idx], s.gameMap))
    case Kept => Ok(s)
    case Stepped(s1) =>
      if !nested && IsMove(cmd) && FAST_WHEELS in s1.robots[idx].activeBoosters then
        match Apply(s1, idx, cmd, true)
        case Err(e) => Err(SimError(e.msg, s.robots[idx], s.gameMap))
        case Ok(s2) => Ok(TickRobot(s2, idx))
      else Ok(if nested then s1 else TickRobot(s1, idx))
  }

  // ----- properties of apply -----

  /** Independent statement of when a non-nested command is legal. */
  predicate Legal(s: Simulator, idx: nat, cmd: Command)
    requires idx < |s.robots|
  {
    LegalFor(s, s.robots[idx], cmd)
  }

  predicate LegalFor(s: Simulator, robot: Robot, cmd: Command)
  {
    if IsMove(cmd) then
      var target := Get(s.gameMap, Plus(robot.pos, Dir(cmd))).status;
      target == EMPTY || target == WRAP || (target == WALL && DRILL in robot.activeBoosters)
    else match cmd
      case USE_FAST_WHEELS => FAST_WHEELS in s.boosters
      case USE_DRILL => DRILL in s.boosters
      case ATTACH_MANUPULATOR(_, _) => MANIPULATOR_EXTENSION in s.boosters
      case RESET =>
        TELEPORT in s.boosters && Get(s.gameMap, robot.pos).booster != Some(MYSTERY) && robot.pos !in s.teleports
      case SHIFT_TO(x, y) => Point(x, y) in s.teleports
      case CLONE => CLONING in s.boosters && Get(s.gameMap, robot.pos).booster == Some(MYSTERY)
      case _ => true
  }

  /** The second half of a fast-wheels move never fails: it either moves or
      leaves the world as it is. */
  lemma NestedMoveNeverFails(s: Simulator, idx: nat, cmd: Command)
    requires idx < |s.robots| && IsMove(cmd)
    ensures Apply(s, idx, cmd, true).Ok?
    ensures var target := Get(s.gameMap, Plus(s.robots[idx].pos, Dir(cmd))).status;
      (target == SUPERWALL || (target == WALL && DRILL !in s.robots[idx].activeBoosters))
        ==> Apply(s, idx, cmd, true) == Ok(s)
  {
  }

  /** A non-nested apply fails exactly on the illegal commands. */
  lemma ApplyFailsIff(s: Simulator, idx: nat, cmd: Command)
    requires idx < |s.robots|
    ensures Apply(s, idx, cmd, false).Ok? <==> Legal(s, idx, cmd)
  {
    StepLegal(s, idx, cmd, false);
    ApplyErrIff(s, idx, cmd);
  }

  /** A non-nested apply whose first step is taken is that step, the
      nested repeat of a move under fast wheels, and the tick of the
      actor. */
  lemma ApplyCases(s: Simulator, idx: nat, cmd: Command)
    requires idx < |s.robots|
    ensures var st := ApplyStep(s, idx, cmd, false);
      st.Stepped? ==>
        if IsMove(cmd) && FAST_WHEELS in st.next.robots[idx].activeBoosters then
          (Apply(st.next, idx, cmd, true).Ok? ==> Apply(s, idx, cmd, false) == Ok(TickRobot(Apply(st.next, idx, cmd, true).value, idx)))
        else Apply(s, idx, cmd, false) == Ok(TickRobot(st.next, idx))
  {
  }

  /** A non-nested apply fails exactly when its first step is not taken. */
  lemma ApplyErrIff(s: Simulator, idx: nat, cmd: Command)
    requires idx < |s.robots|
    ensures Apply(s, idx, cmd, false).Err? <==> !ApplyStep(s, idx, cmd, false).Stepped?
  {
    StepLegal(s, idx, cmd, false);
    var st := ApplyStep(s, idx, cmd, false);
    if st.Stepped? {
      ApplyCases(s, idx, cmd);
      if IsMove(cmd) {
        NestedMoveOk(st.next, idx, cmd);
      }
    }
  }

  lemma NestedMoveOk(s: Simulator, idx: nat, cmd: Command)
    requires idx < |s.robots| && IsMove(cmd)
    ensures Apply(s, idx, cmd, true).Ok?
  {
    NestedMoveNeverFails(s, idx, cmd);
  }

  /** The first step of a non-nested command is taken exactly when the
      command is legal; otherwise it dies. */
  lemma StepLegal(s: Simulator, idx: nat, cmd: Command, nested: bool)
    requires idx < |s.robots|
    ensures var st := ApplyStep(s, idx, cmd, nested);
      !nested ==> (st.Stepped? <==> Legal(s, idx, cmd)) && !st.Kept?
  {
    var robot := s.robots[idx];
    var picked := Pickup(s.gameMap, robot.pos);
    var pending1 := if picked.Some? then Incremented(s.freshBoosters, picked.value) else s.freshBoosters;
    var o := Effect(s, robot, cmd, nested, pending1);
  }

  /** Every non-nested apply is one step, at most one nested repeat (exactly
      when a move leaves fast wheels active), then exactly one tick of robot idx. */
  lemma ApplyShape(s: Simulator, idx: nat, cmd: Command)
    requires idx < |s.robots| && Legal(s, idx, cmd)
    ensures ApplyStep(s, idx, cmd, false).Stepped?
    ensures var s1 := ApplyStep(s, idx, cmd, false).next;
      if IsMove(cmd) && FAST_WHEELS in s1.robots[idx].activeBoosters then
        Apply(s1, idx, cmd, true).Ok? && Apply(s, idx, cmd, false) == Ok(TickRobot(Apply(s1, idx, cmd, true).value, idx))
      else Apply(s, idx, cmd, false) == Ok(TickRobot(s1, idx))
  {
    ApplyFailsIff(s, idx, cmd);
    var s1 := ApplyStep(s, idx, cmd, false).next;
    if IsMove(cmd) {
      NestedMoveNeverFails(s1, idx, cmd);
    }
  }

  /** A legal first step of a move is the same whether or not it is nested. */
  lemma LegalMoveStepIgnoresNesting(s: Simulator, idx: nat, cmd: Command)
    requires idx < |s.robots| && IsMove(cmd) && Legal(s, idx, cmd)
    ensures ApplyStep(s, idx, cmd, true) == ApplyStep(s, idx, cmd, false)
    ensures ApplyStep(s, idx, cmd, false).Stepped?
    ensures ApplyStep(s, idx, cmd, false).next.robots[idx].pos == Plus(s.robots[idx].pos, Dir(cmd))
  {
  }

  /** Inventory of fresh boosters after the pickup at the start of `apply`. */
  function PendingAfterPickup(s: Simulator, idx: nat): map<BoosterType, int>
    requires idx < |s.robots|
  {
    var picked := Pickup(s.gameMap, s.robots[idx].pos);
    if picked.Some? then Incremented(s.freshBoosters, picked.value) else s.freshBoosters
  }

  lemma StepKeepsOthers(s: Simulator, idx: nat, cmd: Command, nested: bool)
    requires idx < |s.robots|
    ensures var st := ApplyStep(s, idx, cmd, nested);
      st.Stepped? ==>
        && (forall j :: 0 <= j < |s.robots| && j != idx ==> st.next.robots[j] == s.robots[j])
        && (cmd == CLONE ==> st.next.robots[|s.robots|] == DefaultRobot(s.robots[idx].pos))
  {
  }

  /** Only robot idx changes, and CLONE appends one default robot where the
      actor stands; the list never shrinks. */
  lemma ApplyKeepsOtherRobots(s: Simulator, idx: nat, cmd: Command, nested: bool)
    requires idx < |s.robots|
    ensures var r := Apply(s, idx, cmd, nested);
      r.Ok? ==>
        && |r.value.robots| >= |s.robots|
        && (forall j :: 0 <= j < |s.robots| && j != idx ==> r.value.robots[j] == s.robots[j])
        && (cmd == CLONE ==> r.value.robots[|s.robots|] == DefaultRobot(s.robots[idx].pos))
    decreases if nested then 0 else 1
  {
    var st := ApplyStep(s, idx, cmd, nested);
    StepKeepsOthers(s, idx, cmd, nested);
    ApplyFrom(s, idx, cmd, nested);
    if st.Stepped? && !nested && IsMove(cmd) {
      ApplyKeepsOtherRobots(st.next, idx, cmd, true);
      KeptThroughTick(s, st.next, Apply(st.next, idx, cmd, true), idx, cmd);
    }
    if st.Stepped? {
      KeptThroughTick(s, st.next, Ok(st.next), idx, cmd);
    }
  }

  /** The other robots of `s` survive into `t` and the tick of `t`'s actor
      when they survived into `t` from a step `s1` of `s`. */
  lemma KeptThroughTick(s: Simulator, s1: Simulator, r: Result<Simulator, SimError>, idx: nat, cmd: Command)
    requires idx < |s.robots|
    requires |s1.robots| == |s.robots| + (if cmd == CLONE then 1 else 0)
    requires forall j :: 0 <= j < |s.robots| && j != idx ==> s1.robots[j] == s.robots[j]
    requires cmd == CLONE ==> s1.robots[|s.robots|] == DefaultRobot(s.robots[idx].pos)
    requires r.Ok? ==>
      && |r.value.robots| >= |s1.robots|
      && (forall j :: 0 <= j < |s1.robots| && j != idx ==> r.value.robots[j] == s1.robots[j])
      && (cmd == CLONE ==> r.value.robots[|s.robots|] == s1.robots[|s.robots|])
    ensures r.Ok? ==>
      && |TickRobot(r.value, idx).robots| >= |s.robots|
      && (forall j :: 0 <= j < |s.robots| && j != idx ==> TickRobot(r.value, idx).robots[j] == s.robots[j])
      && (cmd == CLONE ==> TickRobot(r.value, idx).robots[|s.robots|] == DefaultRobot(s.robots[idx].pos))
  {
  }

  /** What a successful apply returns: the world itself when the nested
      half of a move is skipped, else the stepped world, possibly ticked,
      or the nested repeat of a move, ticked. */
  lemma ApplyFrom(s: Simulator, idx: nat, cmd: Command, nested: bool)
    requires idx < |s.robots|
    ensures var r := Apply(s, idx, cmd, nested);
      var st := ApplyStep(s, idx, cmd, nested);
      r.Ok? ==>
        || (st.Kept? && r.value == s)
        || (st.Stepped? && (r.value == st.next || r.value == TickRobot(st.next, idx)))
        || (st.Stepped? && !nested && IsMove(cmd) && Apply(st.next, idx, cmd, true).Ok?
              && r.value == TickRobot(Apply(st.next, idx, cmd, true).value, idx))
  {
  }

  /** Cells only ever become WRAP: every status is kept or turned to WRAP. */
  ghost predicate OnlyWraps(m: GameMap, m': GameMap)
  {
    forall q :: Get(m', q).status == Get(m, q).status || Get(m', q).status == WRAP
  }

  lemma OnlyWrapsConsequences(m: GameMap, m': GameMap, m'': GameMap)
    ensures OnlyWraps(m, m)
    ensures OnlyWraps(m, m') && OnlyWraps(m', m'') ==> OnlyWraps(m, m'')
    ensures OnlyWraps(m, m') ==> forall q :: Get(m, q).status == WRAP ==> Get(m', q).status == WRAP
  {
  }

  lemma RepaintOnlyWraps(m: GameMap, r: Robot)
    ensures OnlyWraps(m, RepaintedMap(m, r))
    ensures Get(RepaintedMap(m, r), r.pos).status == WRAP
  {
    forall q ensures Get(RepaintedMap(m, r), q).status == Get(m, q).status || Get(RepaintedMap(m, r), q).status == WRAP {
      RepaintSpec(m, r, q);
    }
    RepaintSpec(m, r, r.pos);
  }

  lemma StepOnlyWraps(s: Simulator, idx: nat, cmd: Command, nested: bool)
    requires idx < |s.robots|
    ensures var st := ApplyStep(s, idx, cmd, nested);
      st.Stepped? ==> OnlyWraps(s.gameMap, st.next.gameMap) && Get(st.next.gameMap, st.next.robots[idx].pos).status == WRAP
  {
    var st := ApplyStep(s, idx, cmd, nested);
    if st.Stepped? {
      var robot := s.robots[idx];
      var picked := Pickup(s.gameMap, robot.pos);
      var map1 := if picked.Some? then Set(s.gameMap, robot.pos, Wrap) else s.gameMap;
      forall q ensures Get(map1, q).status == Get(s.gameMap, q).status || Get(map1, q).status == WRAP {
        GetSet(s.gameMap, robot.pos, Wrap, q);
      }
      RepaintOnlyWraps(map1, st.next.robots[idx]);
      OnlyWrapsConsequences(s.gameMap, map1, st.next.gameMap);
    }
  }

  /** The map only gains WRAP cells, the actor ends on a WRAP cell, and a
      solved map stays solved. */
  lemma ApplyOnlyWraps(s: Simulator, idx: nat, cmd: Command)
    requires idx < |s.robots|
    ensures var r := Apply(s, idx, cmd, false);
      r.Ok? ==>
        && OnlyWraps(s.gameMap, r.value.gameMap)
        && Get(r.value.gameMap, r.value.robots[idx].pos).status == WRAP
        && (HasSolved(s) ==> HasSolved(r.value))
  {
    var st := ApplyStep(s, idx, cmd, false);
    StepOnlyWraps(s, idx, cmd, false);
    ApplyCases(s, idx, cmd);
    var r := Apply(s, idx, cmd, false);
    if r.Ok? {
      var s1 := st.next;
      if IsMove(cmd) && FAST_WHEELS in s1.robots[idx].activeBoosters {
        NestedOnlyWraps(s1, idx, cmd);
        var t := Apply(s1, idx, cmd, true).value;
        OnlyWrapsConsequences(s.gameMap, s1.gameMap, t.gameMap);
        assert r.value == TickRobot(t, idx);
      } else {
        assert r.value == TickRobot(s1, idx);
      }
      SolvedStaysSolved(s, r.value);
    }
  }

  /** The nested half of a move, from a cell already wrapped, succeeds, only
      wraps cells and leaves the actor on a wrapped cell. */
  lemma NestedOnlyWraps(s: Simulator, idx: nat, cmd: Command)
    requires idx < |s.robots| && IsMove(cmd)
    requires Get(s.gameMap, s.robots[idx].pos).status == WRAP
    ensures Apply(s, idx, cmd, true).Ok?
    ensures var t := Apply(s, idx, cmd, true).value;
      OnlyWraps(s.gameMap, t.gameMap) && Get(t.gameMap, t.robots[idx].pos).status == WRAP
  {
    NestedMoveNeverFails(s, idx, cmd);
    StepOnlyWraps(s, idx, cmd, true);
    ApplyFrom(s, idx, cmd, true);
    OnlyWrapsConsequences(s.gameMap, s.gameMap, s.gameMap);
  }

  /** A world whose map only gained WRAP cells is solved if the old one was. */
  lemma SolvedStaysSolved(s: Simulator, t: Simulator)
    requires OnlyWraps(s.gameMap, t.gameMap)
    ensures HasSolved(s) ==> HasSolved(t)
  {
    if HasSolved(s) {
      HasSolvedIffNoEmpty(s);
      HasSolvedIffNoEmpty(t);
    }
  }

  /** A command other than TICK never raises a usable count, keeps the
      time and passes the fresh inventory through. */
  lemma EffectEconomy(s: Simulator, robot: Robot, cmd: Command, nested: bool, pending: map<BoosterType, int>)
    requires Positive(s.boosters)
    ensures var o := Effect(s, robot, cmd, nested, pending);
      o.Next? && cmd != TICK ==>
        && o.time == s.time && o.pending == pending
        && (forall k :: Count(o.boosters, k) <= Count(s.boosters, k))
        && ((IsMove(cmd) || cmd in {NOOP, TURN_CW, TURN_CCW, NOT_EXIST} || cmd.SHIFT_TO?) ==> o.boosters == s.boosters)
  {
    var o := Effect(s, robot, cmd, nested, pending);
    if o.Next? && cmd != TICK {
      var spent :=
        if cmd == USE_FAST_WHEELS || cmd == USE_DRILL then Some(FAST_WHEELS)
        else if cmd.ATTACH_MANUPULATOR? then Some(MANIPULATOR_EXTENSION)
        else if cmd == RESET then Some(TELEPORT)
        else if cmd == CLONE then Some(CLONING)
        else None;
      assert o.boosters == if spent.Some? then Decremented(s.boosters, spent.value) else s.boosters;
      if spent.Some? {
        DecSpec(s.boosters, spent.value);
      }
    }
  }

  lemma StepEconomy(s: Simulator, idx: nat, cmd: Command, nested: bool)
    requires idx < |s.robots| && Positive(s.boosters)
    ensures var st := ApplyStep(s, idx, cmd, nested);
      st.Stepped? && cmd != TICK ==>
        && st.next.time == s.time && st.next.freshBoosters == PendingAfterPickup(s, idx)
        && (forall k :: Count(st.next.boosters, k) <= Count(s.boosters, k))
        && ((IsMove(cmd) || cmd in {NOOP, TURN_CW, TURN_CCW, NOT_EXIST} || cmd.SHIFT_TO?) ==> st.next.boosters == s.boosters)
    ensures var st := ApplyStep(s, idx, cmd, nested);
      st.Stepped? && cmd != TICK ==> Positive(st.next.boosters)
    ensures var st := ApplyStep(s, idx, cmd, nested);
      st.Stepped? && Pickup(s.gameMap, s.robots[idx].pos).Some? ==>
        Get(st.next.gameMap, s.robots[idx].pos) == Wrap
  {
    StepKeepsWrap(s, idx, cmd, nested, s.robots[idx].pos);
    EffectEconomy(s, s.robots[idx], cmd, nested, PendingAfterPickup(s, idx));
    DecSpec(s.boosters, FAST_WHEELS);
    DecSpec(s.boosters, MANIPULATOR_EXTENSION);
    DecSpec(s.boosters, TELEPORT);
    DecSpec(s.boosters, CLONING);
  }

  /** The inventories and the clock of a world. */
  datatype Ledger = Ledger(boosters: map<BoosterType, int>, freshBoosters: map<BoosterType, int>, time: int)

  function LedgerOf(s: Simulator): Ledger
  {
    Ledger(s.boosters, s.freshBoosters, s.time)
  }

  /** The ledger after apply is the ledger after one step, or after the
      nested repeat of a move (the trailing tick touches only the robot). */
  lemma ApplyLedger(s: Simulator, idx: nat, cmd: Command, nested: bool)
    requires idx < |s.robots|
    ensures var r := Apply(s, idx, cmd, nested);
      var st := ApplyStep(s, idx, cmd, nested);
      r.Ok? ==>
        || (st.Kept? && r.value == s)
        || (st.Stepped? && LedgerOf(r.value) == LedgerOf(st.next))
        || (st.Stepped? && !nested && IsMove(cmd) && Apply(st.next, idx, cmd, true).Ok?
              && LedgerOf(r.value) == LedgerOf(Apply(st.next, idx, cmd, true).value))
  {
  }

  /** The two-stage economy outside TICK: usable counts never rise, time
      stands still, and moves, turns, no-ops and shifts leave the usable
      inventory as it was. */
  lemma ApplyBoosterEconomy(s: Simulator, idx: nat, cmd: Command, nested: bool)
    requires idx < |s.robots| && Positive(s.boosters) && cmd != TICK
    ensures var r := Apply(s, idx, cmd, nested);
      r.Ok? ==>
        && r.value.time == s.time
        && (forall k :: Count(r.value.boosters, k) <= Count(s.boosters, k))
        && ((IsMove(cmd) || cmd in {NOOP, TURN_CW, TURN_CCW, NOT_EXIST} || cmd.SHIFT_TO?) ==> r.value.boosters == s.boosters)
        && (!IsMove(cmd) ==> r.value.freshBoosters == PendingAfterPickup(s, idx))
    ensures var r := Apply(s, idx, cmd, nested);
      r.Ok? && !nested && Pickup(s.gameMap, s.robots[idx].pos).Some? ==>
        Get(r.value.gameMap, s.robots[idx].pos) == Wrap
    ensures var r := Apply(s, idx, cmd, nested);
      r.Ok? && !nested && IsMove(cmd) ==>
        var st := ApplyStep(s, idx, cmd, false);
        st.Stepped? &&
        (|| r.value.freshBoosters == PendingAfterPickup(s, idx)
         || (FAST_WHEELS in st.next.robots[idx].activeBoosters
             && r.value.freshBoosters == PendingAfterPickup(st.next, idx)))
    decreases if nested then 0 else 1
  {
    if !nested {
      ApplyPickupClears(s, idx, cmd);
      if IsMove(cmd) {
        ApplyMoveFresh(s, idx, cmd);
      }
    }
    StepEconomy(s, idx, cmd, nested);
    ApplyLedger(s, idx, cmd, nested);
    var st := ApplyStep(s, idx, cmd, nested);
    if st.Stepped? && !nested && IsMove(cmd) {
      ApplyBoosterEconomy(st.next, idx, cmd, true);
    }
  }

  /** A cell that reads plain Wrap stays so through a step, and so does
      the actor's cell when its booster is picked up. */
  lemma StepKeepsWrap(s: Simulator, idx: nat, cmd: Command, nested: bool, q: Point)
    requires idx < |s.robots|
    ensures var st := ApplyStep(s, idx, cmd, nested);
      st.Stepped? && (Get(s.gameMap, q) == Wrap || (q == s.robots[idx].pos && Pickup(s.gameMap, q).Some?)) ==>
        Get(st.next.gameMap, q) == Wrap
  {
    var st := ApplyStep(s, idx, cmd, nested);
    if st.Stepped? {
      var robot := s.robots[idx];
      var picked := Pickup(s.gameMap, robot.pos);
      var map1 := if picked.Some? then Set(s.gameMap, robot.pos, Wrap) else s.gameMap;
      GetSet(s.gameMap, robot.pos, Wrap, q);
      assert st.next.gameMap == RepaintedMap(map1, st.next.robots[idx]);
      RepaintSpec(map1, st.next.robots[idx], q);
    }
  }

  /** A step of a move passes the fresh inventory after the pickup
      through. */
  lemma MoveStepFresh(s: Simulator, idx: nat, cmd: Command, nested: bool)
    requires idx < |s.robots| && IsMove(cmd)
    ensures var st := ApplyStep(s, idx, cmd, nested);
      st.Stepped? ==> st.next.freshBoosters == PendingAfterPickup(s, idx)
  {
  }

  /** A picked-up booster cannot be picked up again: after a successful
      apply its cell reads plain Wrap. */
  lemma ApplyPickupClears(s: Simulator, idx: nat, cmd: Command)
    requires idx < |s.robots|
    ensures var r := Apply(s, idx, cmd, false);
      r.Ok? && Pickup(s.gameMap, s.robots[idx].pos).Some? ==>
        Get(r.value.gameMap, s.robots[idx].pos) == Wrap
  {
    var pos := s.robots[idx].pos;
    var st := ApplyStep(s, idx, cmd, false);
    ApplyErrIff(s, idx, cmd);
    ApplyCases(s, idx, cmd);
    StepKeepsWrap(s, idx, cmd, false, pos);
    if st.Stepped? && IsMove(cmd) && FAST_WHEELS in st.next.robots[idx].activeBoosters {
      ApplyFrom(st.next, idx, cmd, true);
      StepKeepsWrap(st.next, idx, cmd, true, pos);
    }
  }

  /** A move passes the fresh inventory after the pickup through, or,
      under fast wheels, the one after the nested repeat's own pickup. */
  lemma ApplyMoveFresh(s: Simulator, idx: nat, cmd: Command)
    requires idx < |s.robots| && IsMove(cmd)
    ensures var r := Apply(s, idx, cmd, false);
      r.Ok? ==>
        var st := ApplyStep(s, idx, cmd, false);
        st.Stepped? &&
        (|| r.value.freshBoosters == PendingAfterPickup(s, idx)
         || (FAST_WHEELS in st.next.robots[idx].activeBoosters
             && r.value.freshBoosters == PendingAfterPickup(st.next, idx)))
  {
    var st := ApplyStep(s, idx, cmd, false);
    ApplyErrIff(s, idx, cmd);
    ApplyCases(s, idx, cmd);
    MoveStepFresh(s, idx, cmd, false);
    if st.Stepped? && FAST_WHEELS in st.next.robots[idx].activeBoosters {
      ApplyFrom(st.next, idx, cmd, true);
      MoveStepFresh(st.next, idx, cmd, true);
    }
  }

  /** TICK never fails; it promotes the fresh boosters (including one picked
      up now) into the usable inventory, empties the fresh one and advances time. */
  lemma ApplyTick(s: Simulator, idx: nat)
    requires idx < |s.robots|
    ensures Apply(s, idx, TICK, false).Ok?
    ensures var r := Apply(s, idx, TICK, false).value;
      && r.boosters == Merged(s.boosters, PendingAfterPickup(s, idx))
      && r.freshBoosters == map[]
      && r.time == s.time + 1
  {
  }

  /** USE_FAST_WHEELS spends one fast-wheels booster and leaves the counter
      at 50 after the trailing tick. */
  lemma UseFastWheels(s: Simulator, idx: nat)
    requires idx < |s.robots| && FAST_WHEELS in s.boosters
    ensures Apply(s, idx, USE_FAST_WHEELS, false).Ok?
    ensures var r := Apply(s, idx, USE_FAST_WHEELS, false).value;
      && r.boosters == Decremented(s.boosters, FAST_WHEELS)
      && r.robots[idx].activeBoosters[FAST_WHEELS] == 50
      && r.robots[idx].pos == s.robots[idx].pos
  {
  }

  /** USE_DRILL, as written, needs a drill but spends a fast-wheels booster:
      the drill count is left as it was. */
  lemma UseDrillSpendsFastWheels(s: Simulator, idx: nat)
    requires idx < |s.robots| && DRILL in s.boosters
    ensures Apply(s, idx, USE_DRILL, false).Ok?
    ensures var r := Apply(s, idx, USE_DRILL, false).value;
      && r.boosters == Decremented(s.boosters, FAST_WHEELS)
      && Count(r.boosters, DRILL) == Count(s.boosters, DRILL)
      && r.robots[idx].activeBoosters[DRILL] == 30
  {
  }

  /** RESET records the actor's cell as a teleport; SHIFT_TO lands on one. */
  lemma TeleportRules(s: Simulator, idx: nat, x: int, y: int)
    requires idx < |s.robots|
    ensures var r := Apply(s, idx, RESET, false);
      r.Ok? ==> r.value.teleports == s.teleports + {s.robots[idx].pos} && s.robots[idx].pos !in s.teleports
    ensures var r := Apply(s, idx, SHIFT_TO(x, y), false);
      r.Ok? <==> Point(x, y) in s.teleports
    ensures var r := Apply(s, idx, SHIFT_TO(x, y), false);
      r.Ok? ==> r.value.robots[idx].pos == Point(x, y) && r.value.teleports == s.teleports
  {
    ApplyFailsIff(s, idx, SHIFT_TO(x, y));
  }

  /** A legal move without fast wheels moves the actor by one cell. */
  lemma LegalMoveMovesOnce(s: Simulator, idx: nat, cmd: Command)
    requires idx < |s.robots| && IsMove(cmd) && Legal(s, idx, cmd)
    requires FAST_WHEELS !in s.robots[idx].activeBoosters
    ensures Apply(s, idx, cmd, false).Ok?
    ensures Apply(s, idx, cmd, false).value.robots[idx].pos == Plus(s.robots[idx].pos, Dir(cmd))
  {
    ApplyFailsIff(s, idx, cmd);
  }
  // ----- robots stay on the map -----

  /** Every robot stands on a cell of the map and every teleport is one. */
  ghost predicate OnMap(s: Simulator)
  {
    && (forall i :: 0 <= i < |s.robots| ==> s.robots[i].pos in s.gameMap.cells)
    && (forall t :: t in s.teleports ==> t in s.gameMap.cells)
  }

  /** Painting never adds a cell: only EMPTY cells, which are on the map, are
      written. */
  lemma {:induction false} PaintArmsKeys(m: GameMap, pos: Point, arms: seq<Point>)
    ensures PaintArms(m, pos, arms).cells.Keys == m.cells.Keys
    decreases |arms|
  {
    if arms != [] {
      var mp := arms[0];
      var m' := if Get(m, mp).status == EMPTY && Visible(m, pos, mp) then Set(m, mp, Get(m, mp).(status := WRAP)) else m;
      assert m'.cells.Keys == m.cells.Keys;
      PaintArmsKeys(m', pos, arms[1..]);
    }
  }

  /** Repainting adds at most the robot's own cell to the map. */
  lemma RepaintedKeys(m: GameMap, r: Robot)
    ensures RepaintedMap(m, r).cells.Keys == m.cells.Keys + {r.pos}
  {
    assert PaintRobotCell(m, r.pos).cells.Keys == m.cells.Keys + {r.pos};
    PaintArmsKeys(PaintRobotCell(m, r.pos), r.pos, ManipulatorPos(r));
  }

  /** A command moves its robot only to a cell of the map (moves never
      enter an absent cell, which reads as an outer wall) or to a teleport,
      and adds at most the robot's own cell to the teleports. */
  lemma EffectOnMap(s: Simulator, robot: Robot, cmd: Command, nested: bool, pending: map<BoosterType, int>)
    ensures var out := Effect(s, robot, cmd, nested, pending);
      out.Next? ==>
        && (out.robot.pos in s.gameMap.cells || out.robot.pos == robot.pos || out.robot.pos in s.teleports)
        && out.teleports <= s.teleports + {robot.pos}
  {
    var out := Effect(s, robot, cmd, nested, pending);
    if out.Next? && IsMove(cmd) {
      assert Get(s.gameMap, out.robot.pos).status != SUPERWALL;
    }
  }

  lemma StepOnMap(s: Simulator, idx: nat, cmd: Command, nested: bool)
    requires idx < |s.robots| && OnMap(s)
    ensures var st := ApplyStep(s, idx, cmd, nested);
      st.Stepped? ==> OnMap(st.next) && st.next.gameMap.cells.Keys == s.gameMap.cells.Keys
  {
    var st := ApplyStep(s, idx, cmd, nested);
    if st.Stepped? {
      var robot := s.robots[idx];
      var picked := Pickup(s.gameMap, robot.pos);
      var map1 := if picked.Some? then Set(s.gameMap, robot.pos, Wrap) else s.gameMap;
      var pending1 := if picked.Some? then Incremented(s.freshBoosters, picked.value) else s.freshBoosters;
      assert map1.cells.Keys == s.gameMap.cells.Keys;
      EffectOnMap(s, robot, cmd, nested, pending1);
      var out := Effect(s, robot, cmd, nested, pending1);
      assert out.teleports <= s.gameMap.cells.Keys;
      var robots1 := s.robots[idx := out.robot];
      var robots2 := if out.clone then robots1 + [DefaultRobot(out.robot.pos)] else robots1;
      var t := Simulator(robots2, map1, out.time, out.boosters, out.pending, out.teleports);
      assert st.next == Repainted(t, idx);
      assert OnMap(t) by {
        forall i | 0 <= i < |robots2| ensures robots2[i].pos in map1.cells {
          if i < |s.robots| && i != idx {
            assert robots2[i] == s.robots[i];
          }
        }
      }
      RepaintedOnMap(t, idx);
    }
  }

  lemma RepaintedOnMap(t: Simulator, idx: nat)
    requires idx < |t.robots| && OnMap(t)
    ensures OnMap(Repainted(t, idx)) && Repainted(t, idx).gameMap.cells.Keys == t.gameMap.cells.Keys
  {
    RepaintedKeys(t.gameMap, t.robots[idx]);
    assert t.gameMap.cells.Keys + {t.robots[idx].pos} == t.gameMap.cells.Keys;
  }

  /** `apply` neither adds nor removes a cell of the map, and keeps every
      robot, a clone included, and every teleport on a cell of the map. */
  lemma ApplyOnMap(s: Simulator, idx: nat, cmd: Command, nested: bool)
    requires idx < |s.robots| && OnMap(s)
    ensures var r := Apply(s, idx, cmd, nested);
      r.Ok? ==> OnMap(r.value) && r.value.gameMap.cells.Keys == s.gameMap.cells.Keys
    decreases if nested then 0 else 1
  {
    var st := ApplyStep(s, idx, cmd, nested);
    StepOnMap(s, idx, cmd, nested);
    ApplyFrom(s, idx, cmd, nested);
    if st.Stepped? {
      var s1 := st.next;
      if !nested && IsMove(cmd) && FAST_WHEELS in s1.robots[idx].activeBoosters {
        ApplyOnMap(s1, idx, cmd, true);
        var r2 := Apply(s1, idx, cmd, true);
        if r2.Ok? {
          TickRobotOnMap(r2.value, idx);
        }
      } else if !nested {
        TickRobotOnMap(s1, idx);
      }
    }
  }

  lemma TickRobotOnMap(s: Simulator, idx: nat)
    requires idx < |s.robots| && OnMap(s)
    ensures OnMap(TickRobot(s, idx)) && TickRobot(s, idx).gameMap == s.gameMap
  {
  }

  /** The cells, the teleports and robot `idx` all lie in `u`. */
  ghost predicate Within(s: Simulator, idx: nat, u: set<Point>)
    requires idx < |s.robots|
  {
    s.gameMap.cells.Keys <= u && s.teleports <= u && s.robots[idx].pos in u
  }

  lemma StepWithin(s: Simulator, idx: nat, cmd: Command, nested: bool, u: set<Point>)
    requires idx < |s.robots| && Within(s, idx, u)
    ensures var st := ApplyStep(s, idx, cmd, nested);
      st.Stepped? ==> Within(st.next, idx, u)
  {
    var st := ApplyStep(s, idx, cmd, nested);
    if st.Stepped? {
      var robot := s.robots[idx];
      var picked := Pickup(s.gameMap, robot.pos);
      var map1 := if picked.Some? then Set(s.gameMap, robot.pos, Wrap) else s.gameMap;
      var pending1 := if picked.Some? then Incremented(s.freshBoosters, picked.value) else s.freshBoosters;
      assert map1.cells.Keys <= u;
      EffectOnMap(s, robot, cmd, nested, pending1);
      var out := Effect(s, robot, cmd, nested, pending1);
      RepaintedKeys(map1, out.robot);
    }
  }

  /** Whatever `apply` does, the map, the teleports and the acting robot
      stay inside any set of points that held them before: the world can
      only reach finitely many places. */
  lemma ApplyWithin(s: Simulator, idx: nat, cmd: Command, nested: bool, u: set<Point>)
    requires idx < |s.robots| && Within(s, idx, u)
    ensures var r := Apply(s, idx, cmd, nested);
      r.Ok? ==> Within(r.value, idx, u)
    decreases if nested then 0 else 1
  {
    var st := ApplyStep(s, idx, cmd, nested);
    StepWithin(s, idx, cmd, nested, u);
    ApplyFrom(s, idx, cmd, nested);
    if st.Stepped? && !nested && IsMove(cmd) && FAST_WHEELS in st.next.robots[idx].activeBoosters {
      ApplyWithin(st.next, idx, cmd, true, u);
    }
  }

  /** A legal ATTACH_MANUPULATOR appends exactly the new offset to the
      actor's manipulators. */
  lemma AttachAddsManipulator(s: Simulator, idx: nat, x: int, y: int)
    requires idx < |s.robots| && MANIPULATOR_EXTENSION in s.boosters
    ensures Apply(s, idx, ATTACH_MANUPULATOR(x, y), false).Ok?
    ensures Apply(s, idx, ATTACH_MANUPULATOR(x, y), false).value.robots[idx].manipulators
      == s.robots[idx].manipulators + [Point(x, y)]
  {
    ApplyShape(s, idx, ATTACH_MANUPULATOR(x, y));
  }
}
