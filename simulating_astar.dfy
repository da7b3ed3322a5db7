/** The simulator-driven searches of player/SimulatingAStar.kt: the nodes of
    the best-first search are whole simulator snapshots in which one robot
    is steered, and a node's successors are the snapshots that `apply`
    yields for six commands. */
module SimulatingAStar {
  import opened Wrappers
  import opened Maps
  import opened Sim
  import opened Boosters
  import opened SearchInvariant
  import opened AStar

  /** `SimulatorAndCommand`: a snapshot, the command that produced it and
      the index of the steered robot. The steered robot exists in every
      node, since its getter indexes the robot list. */
  datatype SimulatorAndCommand = SimulatorAndCommand(sim: Simulator, command: Command, idx: nat)

  type Node = n: SimulatorAndCommand | n.idx < |n.sim.robots|
    witness SimulatorAndCommand(Initial(DefaultRobot(Point(0, 0)), GameMap(map[], 0, 0, 0, 0)), NOOP, 0)

  /** The steered robot. */
  function RobotOf(n: Node): Robot
  {
    n.sim.robots[n.idx]
  }

  /** The commands tried from every node, in the order tried. */
  const SearchCommands: seq<Command> := [TURN_CW, TURN_CCW, MOVE_UP, MOVE_RIGHT, MOVE_LEFT, MOVE_DOWN]

  /** The successors of `n` for the commands `cmds`, in order: one node per
      command whose `apply` succeeds (a failing `apply` is dropped). */
  function Successors(n: Node, cmds: seq<Command>): seq<Node>
  {
    if cmds == [] then []
    else
      var r := Apply(n.sim, n.idx, cmds[0], false);
      var here: seq<Node> := if r.Ok? then [SimulatorAndCommand(r.value, cmds[0], n.idx)] else [];
      here + Successors(n, cmds[1..])
  }

  /** `neighbors`. */
  function Neighbors(n: Node): seq<Node>
  {
    Successors(n, SearchCommands)
  }

  /** A node is a successor exactly when it is tagged with one of the
      commands, steers the same robot, and holds the world that `apply`
      returns for that command; there is at most one per command. */
  lemma {:induction false} SuccessorsSpec(n: Node, cmds: seq<Command>)
    ensures |Successors(n, cmds)| <= |cmds|
    ensures forall m :: m in Successors(n, cmds) <==>
      m.command in cmds && m.idx == n.idx && Apply(n.sim, n.idx, m.command, false) == Ok(m.sim)
  {
    if cmds != [] {
      SuccessorsSpec(n, cmds[1..]);
      assert forall c :: c in cmds <==> c == cmds[0] || c in cmds[1..];
    }
  }

  /** What `equals` and `hashCode` look at: the steered robot's position
      and orientation and its index. */
  function NodeKey(n: Node): (Point, Orientation, nat)
  {
    (RobotOf(n).pos, RobotOf(n).orientation, n.idx)
  }

  /** Two nodes are the same search node exactly when they steer the same
      robot index and that robot has the same position and orientation; the
      rest of the world, the command and the active boosters play no part. */
  lemma NodeKeyIdentity(a: Node, b: Node)
    ensures NodeKey(a) == NodeKey(b) <==>
      a.idx == b.idx && RobotOf(a).pos == RobotOf(b).pos && RobotOf(a).orientation == RobotOf(b).orientation
    ensures var b' := SimulatorAndCommand(b.sim.(robots := b.sim.robots[b.idx := RobotOf(a).(activeBoosters := RobotOf(b).activeBoosters)]), b.command, b.idx);
      a.idx == b.idx ==> NodeKey(b') == NodeKey(a)
  {
  }

  // ----- heuristics, in tenths of a cell -----

  /** The heuristic of a node without manipulators (`Double.MAX_VALUE`). */
  const NoEstimate: int := 0x7fff_ffff

  /** Per manipulator cell: ten per Manhattan unit from the cell to the
      target, plus one when the cell is visible from the robot (the source
      adds 0.1). */
  function ArmCosts(m: GameMap, pos: Point, arms: seq<Point>, target: Point): (cs: seq<int>)
  {
    seq(|arms|, i requires 0 <= i < |arms| => 10 * Manhattan(arms[i], target) + (if Visible(m, pos, arms[i]) then 1 else 0))
  }

  /** `NoEstimate` stands in for `Double.MAX_VALUE` only where every arm
      lies within 214,748,364 cells of the target: there each arm cost is
      below it, as every finite estimate is below `Double.MAX_VALUE`. */
  lemma ArmCostsBelowNoEstimate(m: GameMap, pos: Point, arms: seq<Point>, target: Point)
    requires forall a :: a in arms ==> Manhattan(a, target) < 214_748_364
    ensures forall c :: c in ArmCosts(m, pos, arms, target) ==> c < NoEstimate
  {
    var cs := ArmCosts(m, pos, arms, target);
    forall c | c in cs
      ensures c < NoEstimate
    {
      var i :| 0 <= i < |cs| && cs[i] == c;
      assert arms[i] in arms;
    }
  }

  /** The heuristic of `simulatingAStar` and `simulatingAStarForWalking`:
      the least arm cost over the manipulator cells. */
  function DistanceHeuristic(n: Node, target: Point): (h: int)
    ensures var cs := ArmCosts(n.sim.gameMap, RobotOf(n).pos, ManipulatorPos(RobotOf(n)), target);
      cs != [] ==> h in cs && forall c :: c in cs ==> h <= c
    ensures ManipulatorPos(RobotOf(n)) == [] ==> h == NoEstimate
  {
    var cs := ArmCosts(n.sim.gameMap, RobotOf(n).pos, ManipulatorPos(RobotOf(n)), target);
    if cs == [] then NoEstimate else MinOf(cs)
  }

  /** The heuristic of `simulatingEnclosedAStar` as it parses: each arm's
      lambda body is three statements, and its value is only the last one,
      `+if (inEnclosedArea(pos)) 1.0 else 0.0`; the distance and visibility
      terms are discarded. `enclosed` stands for `GameMap.inEnclosedArea`,
      which is not part of this model. */
  function EnclosedHeuristic(n: Node, enclosed: (GameMap, Point) -> bool): (h: int)
    ensures ManipulatorPos(RobotOf(n)) != [] ==> h == (if enclosed(n.sim.gameMap, RobotOf(n).pos) then 10 else 0)
    ensures ManipulatorPos(RobotOf(n)) == [] ==> h == NoEstimate
  {
    var arms := ManipulatorPos(RobotOf(n));
    if arms == [] then NoEstimate
    else
      var costs := seq(|arms|, i requires 0 <= i < |arms| => if enclosed(n.sim.gameMap, RobotOf(n).pos) then 10 else 0);
      assert costs[0] in costs;
      MinOf(costs)
  }

  // ----- goals -----

  /** `simulatingAStar`: the target cell is wrapped. */
  predicate TargetWrapped(s: Simulator, target: Point)
  {
    Get(s.gameMap, target).status == WRAP
  }

  /** `simulatingEnclosedAStar`: the target is one of robot `idx`'s
      manipulator cells and visible from the robot. */
  predicate TargetInReach(s: Simulator, idx: nat, target: Point)
  {
    idx < |s.robots| && target in ManipulatorPos(s.robots[idx]) && Visible(s.gameMap, s.robots[idx].pos, target)
  }

  /** `simulatingAStarForWalking`: robot `idx` stands on the target. */
  predicate AtTarget(s: Simulator, idx: nat, target: Point)
  {
    idx < |s.robots| && s.robots[idx].pos == target
  }

  // ----- result shaping -----

  function Reversed<X>(s: seq<X>): (r: seq<X>)
    ensures |r| == |s| && forall i :: 0 <= i < |s| ==> r[i] == s[|s| - 1 - i]
  {
    if s == [] then [] else Reversed(s[1..]) + [s[0]]
  }

  function Commands(p: seq<Node>): (cs: seq<Command>)
  {
    seq(|p|, i requires 0 <= i < |p| => p[i].command)
  }

  /** `dropLast(1)`, `map { it.command }`, `reversed()`: the search returns
      the goal node first and the start node last, so this is the list of
      commands from the start to the goal, in the order they are issued. */
  function PlanOf(p: seq<Node>): (cmds: seq<Command>)
    requires |p| >= 1
  {
    Reversed(Commands(p[..|p| - 1]))
  }

  /** Issuing `cmds` to robot `idx` one after another, each through a
      non-nested `apply`; None as soon as one fails. */
  function Run(s: Simulator, idx: nat, cmds: seq<Command>): Option<Simulator>
    decreases |cmds|
  {
    if cmds == [] then Some(s)
    else if idx < |s.robots| && Apply(s, idx, cmds[0], false).Ok? then Run(Apply(s, idx, cmds[0], false).value, idx, cmds[1..])
    else None
  }

  /** A neighbour is one search command away. */
  lemma NeighborStep(t: Node, n: Node)
    requires n in Neighbors(t)
    ensures n.idx == t.idx && n.command in SearchCommands && Apply(t.sim, t.idx, n.command, false) == Ok(n.sim)
  {
    SuccessorsSpec(t, SearchCommands);
  }

  /** Reading one more node off the path puts its command in front. */
  lemma PlanOfGrows(p: seq<Node>, j: nat)
    requires 0 < j < |p|
    ensures PlanOf(p[..j + 1]) == [p[j - 1].command] + PlanOf(p[..j])
  {
    var a, b := PlanOf(p[..j + 1]), PlanOf(p[..j]);
    assert |a| == j && |b| == j - 1;
    forall i | 0 <= i < j ensures a[i] == ([p[j - 1].command] + b)[i] {
      assert a[i] == p[j - 1 - i].command;
      if i > 0 {
        assert b[i - 1] == p[j - 1 - i].command;
      }
    }
  }

  /** Along a path in which each node is a neighbour of the next, the plan
      read off the first `j + 1` nodes drives node `j`'s world to node 0's,
      using only the six search commands. */
  lemma {:induction false} PlanRuns(p: seq<Node>, j: nat)
    requires j < |p|
    requires forall i :: 0 <= i < |p| - 1 ==> p[i] in Neighbors(p[i + 1])
    ensures Run(p[j].sim, p[j].idx, PlanOf(p[..j + 1])) == Some(p[0].sim)
    ensures forall c :: c in PlanOf(p[..j + 1]) ==> c in SearchCommands
  {
    if j > 0 {
      PlanRuns(p, j - 1);
      PlanOfGrows(p, j);
      NeighborStep(p[j], p[j - 1]);
      var rest := PlanOf(p[..j]);
      var plan := [p[j - 1].command] + rest;
      assert plan[0] == p[j - 1].command && plan[1..] == rest;
    } else {
      assert PlanOf(p[..j + 1]) == [];
    }
  }

  // ----- the searches -----

  /** The start node: the given world, tagged NOOP. */
  function Start(sim: Simulator, idx: nat): Node
    requires idx < |sim.robots|
  {
    SimulatorAndCommand(sim, NOOP, idx)
  }

  /** The points any world reachable from `sim` by robot `idx` stays within:
      the map's cells, the teleports and the robot's cell. */
  function Reach(sim: Simulator, idx: nat): set<Point>
    requires idx < |sim.robots|
  {
    sim.gameMap.cells.Keys + sim.teleports + {sim.robots[idx].pos}
  }

  /** Every key with a point of `u` and robot index `idx`. */
  function KeysOver(u: set<Point>, idx: nat): set<(Point, Orientation, nat)>
  {
    (set p | p in u :: (p, UP, idx)) + (set p | p in u :: (p, DOWN, idx))
    + (set p | p in u :: (p, LEFT, idx)) + (set p | p in u :: (p, RIGHT, idx))
  }

  lemma KeyInKeysOver(p: Point, o: Orientation, u: set<Point>, idx: nat)
    requires p in u
    ensures (p, o, idx) in KeysOver(u, idx)
  {
    match o
    case UP => assert (p, o, idx) in (set q | q in u :: (q, UP, idx));
    case DOWN => assert (p, o, idx) in (set q | q in u :: (q, DOWN, idx));
    case LEFT => assert (p, o, idx) in (set q | q in u :: (q, LEFT, idx));
    case RIGHT => assert (p, o, idx) in (set q | q in u :: (q, RIGHT, idx));
  }

  /** A neighbour of a node inside the reach of `sim` is inside it too:
      `apply` keeps the map, the teleports and the robot within any set of
      points that held them. */
  lemma NeighborStaysWithin(t: Node, n: Node, idx: nat, u: set<Point>)
    requires t.idx == idx && Within(t.sim, idx, u) && n in Neighbors(t)
    ensures n.idx == idx && Within(n.sim, idx, u) && NodeKey(n) in KeysOver(u, idx)
  {
    NeighborStep(t, n);
    ApplyWithin(t.sim, idx, n.command, false, u);
    KeyInKeysOver(RobotOf(n).pos, RobotOf(n).orientation, u, idx);
  }

  /** Every neighbour of a node inside `u` is inside `u` too. */
  lemma NeighborsClosed(idx: nat, u: set<Point>)
    ensures forall t: Node, n: Node {:trigger n in Neighbors(t)} ::
      t.idx == idx && Within(t.sim, idx, u) && n in Neighbors(t) ==>
        n.idx == idx && Within(n.sim, idx, u) && NodeKey(n) in KeysOver(u, idx)
  {
    forall t: Node | t.idx == idx && Within(t.sim, idx, u)
      ensures forall n: Node {:trigger n in Neighbors(t)} :: n in Neighbors(t) ==>
        n.idx == idx && Within(n.sim, idx, u) && NodeKey(n) in KeysOver(u, idx)
    {
      NeighborsStayWithin(t, idx, u);
    }
  }

  lemma NeighborsStayWithin(t: Node, idx: nat, u: set<Point>)
    requires t.idx == idx && Within(t.sim, idx, u)
    ensures forall n: Node {:trigger n in Neighbors(t)} :: n in Neighbors(t) ==>
      n.idx == idx && Within(n.sim, idx, u) && NodeKey(n) in KeysOver(u, idx)
  {
    forall n: Node | n in Neighbors(t)
      ensures n.idx == idx && Within(n.sim, idx, u) && NodeKey(n) in KeysOver(u, idx)
    {
      NeighborStaysWithin(t, n, idx, u);
    }
  }

  /** `aStarSearch` with step 10 (the heuristics are in tenths) over any
      neighbour function that keeps robot `idx` and the world inside the
      points `u`. Only finitely many keys lie inside `u`, so the search
      ends. A returned path runs from a node meeting the goal back to
      `from`, each node a neighbour of the next. */
  method SearchWithin(from: Node, idx: nat, u: set<Point>, heur: Node -> int, goal: Node -> bool,
                      neighbours: Node -> seq<Node>)
    returns (r: Option<seq<Node>>)
    requires from.idx == idx && Within(from.sim, idx, u)
    requires forall t: Node, n: Node {:trigger n in neighbours(t)} ::
      t.idx == idx && Within(t.sim, idx, u) && n in neighbours(t) ==>
        n.idx == idx && Within(n.sim, idx, u) && NodeKey(n) in KeysOver(u, idx)
    ensures goal(from) ==> r == Some([from])
    ensures r.Some? ==>
      && |r.value| >= 1 && goal(r.value[0]) && r.value[|r.value| - 1] == from
      && forall i :: 0 <= i < |r.value| - 1 ==> r.value[i] in neighbours(r.value[i + 1])
  {
    KeyInKeysOver(RobotOf(from).pos, RobotOf(from).orientation, u, idx);
    ghost var inv := (n: Node) => n.idx == idx && Within(n.sim, idx, u);
    r := AStarSearch(from, heur, 10, goal, neighbours, NodeKey, inv, KeysOver(u, idx));
  }

  /** The shared pipeline of the three searches: the search from the start
      node, then its path shaped into a plan. Positions stay within the
      map's cells, the teleports and the robot's first cell. A returned plan
      is made of the six search commands and drives robot `idx` from `sim`
      to a world meeting the goal; a start world that meets the goal gives
      the empty plan. None is the search's null. */
  method SearchPlan(sim: Simulator, idx: nat, heur: Node -> int, goal: Simulator -> bool)
    returns (plan: Option<seq<Command>>)
    requires idx < |sim.robots|
    ensures goal(sim) ==> plan == Some([])
    ensures plan.Some? ==>
      && (forall c :: c in plan.value ==> c in SearchCommands)
      && Run(sim, idx, plan.value).Some?
      && goal(Run(sim, idx, plan.value).value)
  {
    var u := Reach(sim, idx);
    NeighborsClosed(idx, u);
    var r := SearchWithin(Start(sim, idx), idx, u, heur, (n: Node) => goal(n.sim), Neighbors);
    if r.None? {
      return None;
    }
    var p := r.value;
    PlanRuns(p, |p| - 1);
    assert p[..|p|] == p;
    plan := Some(PlanOf(p));
  }

  /** `simulatingAStar`: the plan to get the target cell wrapped, or
      `[NOOP]` when the search fails. */
  method SimulatingAStarToWrap(sim: Simulator, target: Point, idx: nat) returns (cmds: seq<Command>)
    requires idx < |sim.robots|
    ensures TargetWrapped(sim, target) ==> cmds == []
    ensures cmds != [NOOP] ==>
      && (forall c :: c in cmds ==> c in SearchCommands)
      && Run(sim, idx, cmds).Some? && TargetWrapped(Run(sim, idx, cmds).value, target)
  {
    var plan := SearchPlan(sim, idx, (n: Node) => DistanceHeuristic(n, target), s => TargetWrapped(s, target));
    cmds := if plan.Some? then plan.value else [NOOP];
  }

  /** `simulatingEnclosedAStar`: the plan to bring the target into a visible
      manipulator cell, or `[]` when the search fails. */
  method SimulatingEnclosedAStar(sim: Simulator, target: Point, idx: nat, enclosed: (GameMap, Point) -> bool)
    returns (cmds: seq<Command>)
    requires idx < |sim.robots|
    ensures forall c :: c in cmds ==> c in SearchCommands
    ensures Run(sim, idx, cmds).Some?
    ensures cmds != [] ==> TargetInReach(Run(sim, idx, cmds).value, idx, target)
    ensures TargetInReach(sim, idx, target) ==> cmds == []
  {
    var plan := SearchPlan(sim, idx, (n: Node) => EnclosedHeuristic(n, enclosed), s => TargetInReach(s, idx, target));
    cmds := if plan.Some? then plan.value else [];
  }

  /** `simulatingAStarForWalking`: the plan to walk robot `idx` onto the
      target, or `[NOOP]` when the search fails. */
  method SimulatingAStarForWalking(sim: Simulator, target: Point, idx: nat) returns (cmds: seq<Command>)
    requires idx < |sim.robots|
    ensures AtTarget(sim, idx, target) ==> cmds == []
    ensures cmds != [NOOP] ==>
      && (forall c :: c in cmds ==> c in SearchCommands)
      && Run(sim, idx, cmds).Some? && AtTarget(Run(sim, idx, cmds).value, idx, target)
  {
    var plan := SearchPlan(sim, idx, (n: Node) => DistanceHeuristic(n, target), s => AtTarget(s, idx, target));
    cmds := if plan.Some? then plan.value else [NOOP];
  }

  // ----- boosters -----

  /** `applySimulatingBoosters`: CLONE, else an attach, else fast wheels;
      never a drill. */
  function ApplySimulatingBoosters(sim: Simulator, idx: nat): (r: seq<Command>)
    requires idx < |sim.robots|
    requires MANIPULATOR_EXTENSION in sim.boosters ==> |sim.robots[idx].manipulators| > 0
    ensures |r| <= 1 && (r != [] ==> Apply(sim, idx, r[0], false).Ok?)
    ensures r != [] ==> r[0] == CLONE || r[0].ATTACH_MANUPULATOR? || r[0] == USE_FAST_WHEELS
    ensures (r == [CLONE] <==> CloneReady(sim, idx))
    ensures r == [USE_FAST_WHEELS] ==> MANIPULATOR_EXTENSION !in sim.boosters && FAST_WHEELS !in sim.robots[idx].activeBoosters
  {
    BoosterChoicePriority(sim, idx, true, true, false);
    BoosterChoiceLegal(sim, idx, true, true, false);
    BoosterChoice(sim, idx, true, true, false)
  }
}
