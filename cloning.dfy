/** player/CloningBot.kt: the two booster rules of the cloning bots, and
    the swarm `CloningBotWithSegmentationByChristofidesSwarm`, which cuts
    the tour of map regions into one stretch per expected robot and hands
    the stretches, then the least covered regions, to the robots round by
    round. Regions are the nodes of the blob graph, named by number; the
    tour, the robots' current regions and the planner that turns a region
    into commands come from outside. */
module Cloning {
  import opened Wrappers
  import opened Maps
  import opened Utils
  import opened Sim
  import opened Boosters

  // ----- booster rules -----

  /** `applyMasterSimulatingBoosters`: CLONE, else an attach, else fast
      wheels, else a drill, each of the last two only while not active. */
  function ApplyMasterSimulatingBoosters(sim: Simulator, idx: nat): (r: seq<Command>)
    requires idx < |sim.robots|
    requires MANIPULATOR_EXTENSION in sim.boosters ==> |sim.robots[idx].manipulators| > 0
    ensures |r| <= 1 && (r != [] ==> Apply(sim, idx, r[0], false).Ok?)
    ensures r == [CLONE] <==> CloneReady(sim, idx)
    ensures (|r| == 1 && r[0].ATTACH_MANUPULATOR?) <==> !CloneReady(sim, idx) && MANIPULATOR_EXTENSION in sim.boosters
    ensures r == [USE_DRILL] ==>
      && MANIPULATOR_EXTENSION !in sim.boosters
      && !(FAST_WHEELS in sim.boosters && FAST_WHEELS !in sim.robots[idx].activeBoosters)
      && DRILL !in sim.robots[idx].activeBoosters
    ensures r == [] <==>
      && !CloneReady(sim, idx) && MANIPULATOR_EXTENSION !in sim.boosters
      && (FAST_WHEELS !in sim.boosters || FAST_WHEELS in sim.robots[idx].activeBoosters)
      && (DRILL !in sim.boosters || DRILL in sim.robots[idx].activeBoosters)
  {
    BoosterChoicePriority(sim, idx, true, true, true);
    BoosterChoiceLegal(sim, idx, true, true, true);
    BoosterChoice(sim, idx, true, true, true)
  }

  /** `applyNonsimulatingMasterSimulatingBoosters`: only CLONE or an
      attach; wheels and drills are never used. */
  function ApplyNonsimulatingBoosters(sim: Simulator, idx: nat): (r: seq<Command>)
    requires idx < |sim.robots|
    requires MANIPULATOR_EXTENSION in sim.boosters ==> |sim.robots[idx].manipulators| > 0
    ensures |r| <= 1 && (r != [] ==> Apply(sim, idx, r[0], false).Ok?)
    ensures r != [] ==> r[0] == CLONE || r[0].ATTACH_MANUPULATOR?
    ensures r == [] <==> !CloneReady(sim, idx) && MANIPULATOR_EXTENSION !in sim.boosters
    ensures r == [CLONE] <==> CloneReady(sim, idx)
  {
    BoosterChoicePriority(sim, idx, true, false, false);
    BoosterChoiceLegal(sim, idx, true, false, false);
    BoosterChoice(sim, idx, true, false, false)
  }

  // ----- cutting the tour -----

  /** The cells holding a CLONING booster. */
  function CloningCells(m: GameMap): set<Point>
  {
    set p | p in m.cells && m.cells[p].booster == Some(CLONING)
  }

  /** `botNumber`: one robot per CLONING booster on the map, plus the
      first. */
  function BotNumber(m: GameMap): (n: nat)
    ensures n >= 1 && n == |CloningCells(m)| + 1
  {
    |CloningCells(m)| + 1
  }

  /** `ceil(n / d)` for whole numbers: how many pieces of `d` cover `n`. */
  function CeilDiv(n: nat, d: nat): nat
    requires d > 0
  {
    if n == 0 then 0 else if n <= d then 1 else 1 + CeilDiv(n - d, d)
  }

  lemma PositiveFactor(q: nat, d: nat)
    requires q * d > 0
    ensures q >= 1
  {
  }

  /** `CeilDiv(n, d)` pieces of `d` cover `n`. */
  lemma {:induction false} CeilDivCovers(n: nat, d: nat)
    requires d > 0
    ensures CeilDiv(n, d) * d >= n
  {
    if n > d {
      CeilDivCovers(n - d, d);
      var c := CeilDiv(n - d, d);
      assert (c + 1) * d == c * d + d;
    }
  }

  /** No fewer pieces of `d` cover `n`: the rounded-up quotient is the
      least `q` with `q * d >= n`. */
  lemma {:induction false} CeilDivLeast(n: nat, d: nat, q: nat)
    requires d > 0 && q * d >= n
    ensures CeilDiv(n, d) <= q
  {
    if n > 0 {
      PositiveFactor(q, d);
    }
    if n > d {
      assert (q - 1) * d == q * d - d;
      CeilDivLeast(n - d, d, q - 1);
    }
  }

  /** Kotlin's `chunked(k)`: consecutive pieces of `k` elements, the last
      one possibly shorter. */
  function Chunked<T>(s: seq<T>, k: nat): seq<seq<T>>
    requires k > 0
    decreases |s|
  {
    if |s| <= k then (if s == [] then [] else [s])
    else [s[..k]] + Chunked(s[k..], k)
  }

  function Flatten<T>(ss: seq<seq<T>>): seq<T>
  {
    if ss == [] then [] else ss[0] + Flatten(ss[1..])
  }

  /** The pieces put back together give the list. */
  lemma {:induction false} ChunkedFlatten<T>(s: seq<T>, k: nat)
    requires k > 0
    ensures Flatten(Chunked(s, k)) == s
    decreases |s|
  {
    if |s| > k {
      ChunkedFlatten(s[k..], k);
      assert Chunked(s, k)[1..] == Chunked(s[k..], k);
      assert s == s[..k] + s[k..];
    } else if s != [] {
      assert Flatten(Chunked(s, k)) == s + Flatten([]);
    }
  }

  /** Every piece is non-empty and at most `k` long, and every piece but
      the last is exactly `k` long. */
  lemma {:induction false} ChunkedSizes<T>(s: seq<T>, k: nat)
    requires k > 0
    ensures var r := Chunked(s, k);
      && (forall i :: 0 <= i < |r| ==> 0 < |r[i]| <= k)
      && (forall i :: 0 <= i < |r| - 1 ==> |r[i]| == k)
    decreases |s|
  {
    if |s| > k {
      ChunkedSizes(s[k..], k);
      var r := Chunked(s, k);
      assert forall i :: 1 <= i < |r| ==> r[i] == Chunked(s[k..], k)[i - 1];
    }
  }

  /** There are `ceil(|s| / k)` pieces. */
  lemma {:induction false} ChunkedCount<T>(s: seq<T>, k: nat)
    requires k > 0
    ensures |Chunked(s, k)| == CeilDiv(|s|, k)
    decreases |s|
  {
    if |s| > k {
      ChunkedCount(s[k..], k);
    }
  }

  /** The stretches of the tour, one per expected robot at most: the tour
      cut into pieces of `ceil(|tour| / bots)`. An empty tour gives a piece
      size of 0, which `chunked` rejects. */
  function Segments(tour: seq<nat>, bots: nat): (r: Option<seq<seq<nat>>>)
    requires bots >= 1
    ensures r.None? <==> tour == []
    ensures r.Some? ==> r.value == Chunked(tour, CeilDiv(|tour|, bots))
  {
    var size := CeilDiv(|tour|, bots);
    if size == 0 then None else Some(Chunked(tour, size))
  }

  /** There are at most `bots` stretches, all full but the last, and
      together they are the tour. */
  lemma SegmentsShape(tour: seq<nat>, bots: nat)
    requires bots >= 1 && tour != []
    ensures var r := Segments(tour, bots).value;
      && Flatten(r) == tour
      && 1 <= |r| <= bots
      && (forall i :: 0 <= i < |r| ==> 0 < |r[i]| <= CeilDiv(|tour|, bots))
      && (forall i :: 0 <= i < |r| - 1 ==> |r[i]| == CeilDiv(|tour|, bots))
  {
    var size := CeilDiv(|tour|, bots);
    ChunkedFlatten(tour, size);
    ChunkedSizes(tour, size);
    ChunkedCount(tour, size);
    CeilDivCovers(|tour|, bots);
    assert bots * size == size * bots;
    CeilDivLeast(|tour|, size, bots);
  }

  // ----- membership in stretches -----

  lemma {:induction false} FlattenMember<T>(ss: seq<seq<T>>, x: T)
    ensures x in Flatten(ss) <==> exists k :: 0 <= k < |ss| && x in ss[k]
  {
    if ss != [] {
      FlattenMember(ss[1..], x);
      if x in Flatten(ss[1..]) {
        var k :| 0 <= k < |ss[1..]| && x in ss[1..][k];
        assert x in ss[k + 1];
      }
      if exists k :: 0 <= k < |ss| && x in ss[k] {
        var k :| 0 <= k < |ss| && x in ss[k];
        if k > 0 {
          assert x in ss[1..][k - 1];
        }
      }
    }
  }

  ghost predicate Distinct<T>(s: seq<T>)
  {
    forall i, j :: 0 <= i < j < |s| ==> s[i] != s[j]
  }

  lemma DistinctAppend<T>(a: seq<T>, b: seq<T>)
    requires Distinct(a + b)
    ensures Distinct(a) && Distinct(b) && forall x :: x in a ==> x !in b
  {
    assert forall i :: 0 <= i < |a| ==> (a + b)[i] == a[i];
    assert forall j :: 0 <= j < |b| ==> (a + b)[|a| + j] == b[j];
    forall x | x in a ensures x !in b {
      var i :| 0 <= i < |a| && a[i] == x;
    }
  }

  /** The stretches of a tour that visits each region once share no
      region. */
  lemma {:induction false} StretchesDisjoint<T>(ss: seq<seq<T>>, k: nat, j: nat, x: T)
    requires Distinct(Flatten(ss)) && k < j < |ss| && x in ss[k]
    ensures x !in ss[j]
  {
    DistinctAppend(ss[0], Flatten(ss[1..]));
    if k == 0 {
      FlattenMember(ss[1..], x);
    } else {
      assert ss[1..][k - 1] == ss[k] && ss[1..][j - 1] == ss[j];
      StretchesDisjoint(ss[1..], k - 1, j - 1, x);
    }
  }

  /** `segments.first { it.contains(x) }`: the index of the first stretch
      holding `x`. */
  function FirstContaining<T(==)>(ss: seq<seq<T>>, x: T): (k: nat)
    requires x in Flatten(ss)
    ensures k < |ss| && x in ss[k] && forall j :: 0 <= j < k ==> x !in ss[j]
  {
    if x in ss[0] then 0
    else
      assert Flatten(ss) == ss[0] + Flatten(ss[1..]);
      var k := FirstContaining(ss[1..], x);
      assert forall j :: 1 <= j <= k ==> ss[j] == ss[1..][j - 1];
      k + 1
  }

  /** `removeAll`: the list without the elements of `r`, order kept. */
  function Without<T(==,!new)>(s: seq<T>, r: seq<T>): (w: seq<T>)
    ensures forall x :: x in w <==> x in s && x !in r
  {
    if s == [] then []
    else (if s[0] in r then [] else [s[0]]) + Without(s[1..], r)
  }

  // ----- the swarm -----

  /** The robots sent to a region so far, extended by `bot` when the
      region is still tracked (`graphAssignments[node]?.add(bot)`). */
  function AddBot(sent: map<nat, seq<nat>>, node: nat, bot: nat): (r: map<nat, seq<nat>>)
    ensures r.Keys == sent.Keys
    ensures node in sent ==> r[node] == sent[node] + [bot]
    ensures forall n :: n in sent && n != node ==> r[n] == sent[n]
  {
    if node in sent then sent[node := sent[node] + [bot]] else sent
  }

  /** The tracked regions that still have an EMPTY cell. */
  function Live(sent: map<nat, seq<nat>>, wrapped: nat -> bool): (r: map<nat, seq<nat>>)
    ensures forall n :: n in r <==> n in sent && !wrapped(n)
    ensures forall n :: n in r ==> r[n] == sent[n]
  {
    map n | n in sent && !wrapped(n) :: sent[n]
  }

  /** A region no live region has fewer robots than. */
  ghost predicate LeastCovered(live: map<nat, seq<nat>>, c: nat)
  {
    c in live && forall d :: d in live ==> |live[c]| <= |live[d]|
  }

  /** A stretch still waiting in the tour, or the one holding `here`. */
  ghost predicate Claimable(segments: seq<seq<nat>>, path: seq<nat>, here: nat, k: nat)
    requires k < |segments| && |segments[k]| > 0
  {
    segments[k][0] in path || here in segments[k]
  }

  /** `path` holds each stretch whole or not at all. */
  ghost predicate WholeStretches(segments: seq<seq<nat>>, path: seq<nat>)
  {
    forall k, i {:trigger segments[k][i] in path} :: 0 <= k < |segments| && 0 <= i < |segments[k]| ==>
      (segments[k][i] in path <==> segments[k][0] in path)
  }

  /** Handing out stretch `k` drops it whole; the stretches of a tour that
      visits each region once share no region, so every other stretch is
      kept whole too. */
  lemma ClaimKeepsWhole(segments: seq<seq<nat>>, path: seq<nat>, k: nat)
    requires Distinct(Flatten(segments)) && WholeStretches(segments, path) && k < |segments|
    ensures WholeStretches(segments, Without<nat>(path, segments[k]))
  {
    var rest := Without<nat>(path, segments[k]);
    forall j, i | 0 <= j < |segments| && 0 <= i < |segments[j]|
      ensures segments[j][i] in rest <==> segments[j][0] in rest
    {
      assert segments[j][i] in path <==> segments[j][0] in path;
      if j < k {
        if segments[j][i] in segments[k] { StretchesDisjoint<nat>(segments, j, k, segments[j][i]); }
        if segments[j][0] in segments[k] { StretchesDisjoint<nat>(segments, j, k, segments[j][0]); }
      } else if j > k {
        if segments[j][i] in segments[k] { StretchesDisjoint<nat>(segments, k, j, segments[j][i]); }
        if segments[j][0] in segments[k] { StretchesDisjoint<nat>(segments, k, j, segments[j][0]); }
      }
    }
  }

  /** The state of the swarm between robot turns: each robot's pending
      command stream, the rest of each robot's stretch, the robots sent to
      each region, and the part of the tour not yet handed out. */
  class Swarm {
    var commands: map<nat, seq<(nat, Command)>>
    var pathAssignments: map<nat, seq<nat>>
    var graphAssignments: map<nat, seq<nat>>
    var optimalPath: seq<nat>
    const tour: seq<nat>
    const segments: seq<seq<nat>>

    /** The stretches cut a tour that visits each region once; the tour
        still to hand out consists of whole stretches; a robot with a
        remembered stretch has some of it left. */
    ghost predicate Valid()
      reads this
    {
      && Flatten(segments) == tour && Distinct(tour)
      && (forall k :: 0 <= k < |segments| ==> |segments[k]| > 0)
      && (forall x :: x in optimalPath ==> x in tour)
      && WholeStretches(segments, optimalPath)
      && (forall b :: b in pathAssignments ==> pathAssignments[b] != [])
    }

    /** The set-up: the whole tour waits, cut for `bots` robots, every
        region tracked with no robot, and robot `idx` runs `master`. */
    constructor (tour: seq<nat>, bots: nat, idx: nat, master: seq<(nat, Command)>)
      requires bots >= 1 && tour != [] && Distinct(tour)
      ensures Valid()
      ensures this.tour == tour && segments == Segments(tour, bots).value && optimalPath == tour
      ensures commands == map[idx := master] && pathAssignments == map[]
      ensures graphAssignments == map n | n in tour :: []
    {
      SegmentsShape(tour, bots);
      var segs := Segments(tour, bots).value;
      this.tour := tour;
      segments := segs;
      optimalPath := tour;
      commands := map[idx := master];
      pathAssignments := map[];
      graphAssignments := map n | n in tour :: [];
      new;
      forall k, i | 0 <= k < |segs| && 0 <= i < |segs[k]|
        ensures segs[k][i] in tour && segs[k][0] in tour
      {
        FlattenMember(segs, segs[k][i]);
        FlattenMember(segs, segs[k][0]);
      }
    }

    /** The `getOrPut` branch that gives robot `bot` a new stream when it
        has none. A robot with the rest of a stretch takes its next region.
        Otherwise, while the tour lasts, it claims a whole stretch (the one
        of a nearest waiting end, or, when the distance query falls back,
        the one of its own region `here`). Once the tour is used up,
        wrapped regions stop being tracked and the robot goes to a region
        with the fewest robots, or to `here`; with no region left its
        stream is empty. `plan(region, bot)` is the bot built for that
        region. */
    method Assign(bot: nat, here: nat, wrapped: nat -> bool, plan: (nat, nat) -> seq<(nat, Command)>)
      returns (stream: seq<(nat, Command)>)
      requires Valid() && here in tour
      modifies this
      ensures Valid() && commands == old(commands)
      ensures old(bot in pathAssignments) ==>
        var path := old(pathAssignments[bot]);
        && stream == plan(path[0], bot)
        && optimalPath == old(optimalPath)
        && pathAssignments == (if |path| == 1 then old(pathAssignments) - {bot} else old(pathAssignments)[bot := path[1..]])
        && graphAssignments == AddBot(old(graphAssignments), path[0], bot)
      ensures old(bot !in pathAssignments && optimalPath != []) ==>
        exists k :: 0 <= k < |segments| && |segments[k]| > 0
          && Claimable(segments, old(optimalPath), here, k)
          && stream == plan(segments[k][0], bot)
          && optimalPath == Without<nat>(old(optimalPath), segments[k])
          && pathAssignments == (if |segments[k]| == 1 then old(pathAssignments) else old(pathAssignments)[bot := segments[k][1..]])
          && graphAssignments == AddBot(old(graphAssignments), segments[k][0], bot)
      ensures old(bot !in pathAssignments && optimalPath == []) ==>
        var live := Live(old(graphAssignments), wrapped);
        && optimalPath == [] && pathAssignments == old(pathAssignments)
        && (live == map[] ==> stream == [] && graphAssignments == live)
        && (live != map[] ==>
              exists c :: && (c == here || LeastCovered(live, c))
                          && stream == plan(c, bot) && graphAssignments == AddBot(live, c, bot))
    {
      if bot in pathAssignments {
        var path := pathAssignments[bot];
        var next := path[0];
        graphAssignments := AddBot(graphAssignments, next, bot);
        if |path| == 1 {
          pathAssignments := pathAssignments - {bot};
        } else {
          pathAssignments := pathAssignments[bot := path[1..]];
        }
        stream := plan(next, bot);
        assert Valid();
      } else if optimalPath != [] {
        var k := ClaimStretch(here);
        ClaimKeepsWhole(segments, optimalPath, k);
        var stretch := segments[k];
        optimalPath := Without<nat>(optimalPath, stretch);
        graphAssignments := AddBot(graphAssignments, stretch[0], bot);
        if |stretch| > 1 {
          pathAssignments := pathAssignments[bot := stretch[1..]];
        }
        stream := plan(stretch[0], bot);
        assert Valid();
      } else {
        var live := Live(graphAssignments, wrapped);
        graphAssignments := live;
        if live == map[] {
          stream := [];
        } else {
          var c := LeastCoveredRegion(live, here);
          graphAssignments := AddBot(live, c, bot);
          stream := plan(c, bot);
        }
        assert Valid();
      }
    }

    /** The stretch a robot claims while the tour lasts: the first stretch
        holding the chosen candidate, which is an end of a waiting stretch
        or, when the distance query falls back, the robot's own region. */
    method ClaimStretch(here: nat) returns (k: nat)
      requires Valid() && here in tour && optimalPath != []
      ensures k < |segments| && |segments[k]| > 0 && Claimable(segments, optimalPath, here, k)
    {
      var x := optimalPath[0];
      FlattenMember(segments, x);
      var j :| 0 <= j < |segments| && x in segments[j];
      var i :| 0 <= i < |segments[j]| && segments[j][i] == x;
      assert segments[j][i] in optimalPath;
      // The distance query: a nearest end of a waiting stretch, or the
      // robot's own region when some end is unreachable.
      var w :| 0 <= w < |segments| && segments[w][0] in optimalPath;
      var fallback: bool :| true;
      var atEnd: bool :| true;
      var candidate := if fallback then here else if atEnd then segments[w][|segments[w]| - 1] else segments[w][0];
      assert fallback || candidate in segments[w];
      FlattenMember(segments, candidate);
      k := FirstContaining<nat>(segments, candidate);
      if !fallback && k < w {
        // k > w is ruled out by `first`; k < w by the tour's distinctness.
        StretchesDisjoint<nat>(segments, k, w, candidate);
      }
    }

    /** The region a robot goes to once the tour is used up: one with the
        fewest robots among the live ones, or the robot's own region when
        the distance query falls back. */
    static method LeastCoveredRegion(live: map<nat, seq<nat>>, here: nat) returns (c: nat)
      requires live != map[]
      ensures c == here || LeastCovered(live, c)
    {
      var count := (n: nat) => if n in live then |live[n]| else 0;
      LeastExists(live.Keys, count);
      c :| c == here || (c in live && forall d :: d in live.Keys ==> count(c) <= count(d));
    }

    /** Robot `bot`'s turn: a robot without a stream is assigned one; then
        the head of its stream is emitted and the stream advanced, or, when
        the stream is used up, NOOP is emitted and the stream dropped. No
        other robot's stream changes. */
    method Turn(bot: nat, here: nat, wrapped: nat -> bool, plan: (nat, nat) -> seq<(nat, Command)>)
      returns (e: (nat, Command))
      requires Valid() && here in tour
      modifies this
      ensures Valid()
      ensures bot in old(commands) && old(commands[bot]) == [] ==> e == (bot, NOOP) && bot !in commands
      ensures bot in old(commands) && old(commands[bot]) != [] ==>
        e == old(commands[bot])[0] && bot in commands && commands[bot] == old(commands[bot])[1..]
      ensures bot !in commands ==> e == (bot, NOOP)
      ensures forall i :: i != bot ==> (i in commands <==> i in old(commands))
      ensures forall i :: i != bot && i in commands ==> commands[i] == old(commands[i])
    {
      var stream: seq<(nat, Command)>;
      if bot in commands {
        stream := commands[bot];
      } else {
        stream := Assign(bot, here, wrapped, plan);
      }
      if stream == [] {
        commands := commands - {bot};
        e := (bot, NOOP);
      } else {
        commands := commands[bot := stream[1..]];
        e := stream[0];
      }
    }

    /** One round of the swarm: each of the `robots` robots present at its
        start, in index order, emits one command — the head of its stream,
        after a new stream is sent to a robot without one, or NOOP when
        the stream is used up, which drops it — and then `(0, TICK)` closes
        the round unless the map is solved. The map is read afresh at
        each turn, after the commands already emitted this round were
        applied: `heres[i]` is robot i's region then, and `wrapped(i, c)`
        tells whether region c is wrapped at robot i's turn. */
    method Round(robots: nat, heres: seq<nat>, solved: bool, wrapped: (nat, nat) -> bool,
                 plan: (nat, nat) -> seq<(nat, Command)>)
      returns (out: seq<(nat, Command)>)
      requires Valid() && |heres| == robots && forall i :: 0 <= i < robots ==> heres[i] in tour
      modifies this
      ensures Valid()
      ensures |out| == robots + (if solved then 0 else 1)
      ensures !solved ==> out[robots] == (0, TICK)
      ensures forall i :: 0 <= i < robots && i !in commands ==> out[i] == (i, NOOP)
      ensures forall i :: 0 <= i < robots && i in old(commands) && old(commands[i]) == [] ==>
        out[i] == (i, NOOP) && i !in commands
      ensures forall i :: 0 <= i < robots && i in old(commands) && old(commands[i]) != [] ==>
        out[i] == old(commands[i])[0] && i in commands && commands[i] == old(commands[i])[1..]
      ensures forall i :: i >= robots ==> (i in commands <==> i in old(commands))
      ensures forall i :: i >= robots && i in commands ==> commands[i] == old(commands[i])
    {
      out := [];
      var bot := 0;
      while bot < robots
        invariant Valid() && bot <= robots && |out| == bot
        invariant forall i :: 0 <= i < bot && i !in commands ==> out[i] == (i, NOOP)
        invariant forall i :: 0 <= i < bot && i in old(commands) && old(commands[i]) == [] ==>
          out[i] == (i, NOOP) && i !in commands
        invariant forall i :: 0 <= i < bot && i in old(commands) && old(commands[i]) != [] ==>
          out[i] == old(commands[i])[0] && i in commands && commands[i] == old(commands[i])[1..]
        invariant forall i :: i >= bot ==> (i in commands <==> i in old(commands))
        invariant forall i :: i >= bot && i in commands ==> commands[i] == old(commands[i])
      {
        var e := Turn(bot, heres[bot], (c: nat) => wrapped(bot, c), plan);
        out := out + [e];
        bot := bot + 1;
      }
      if !solved {
        out := out + [(0, TICK)];
      }
    }
  }
}
