/** The generic best-first search of player/AStar.kt. Nodes are compared
    through `key` (the source's `equals`/`hashCode`), so two nodes with the
    same key count as the same node for the discovered set and the
    predecessor map. */
module AStar {
  import opened Wrappers
  import opened Maps
  import opened Sim
  import opened SearchInvariant

  /** `reconstructPath`: follow the predecessor map from `value` until a node
      without a predecessor. The ghost depths, which drop by one along every
      predecessor link, show the walk ends and never repeats a key. */
  method ReconstructPath<T, K>(value: T, paths: map<K, T>, key: T -> K, ghost depth: map<K, nat>, ghost node: map<K, T>)
    returns (res: seq<T>)
    requires key(value) in node && node[key(value)] == value
    requires forall k :: k in node ==> k in depth
    requires forall k :: k in paths ==>
      k in node && key(paths[k]) in node && node[key(paths[k])] == paths[k] && depth[k] == depth[key(paths[k])] + 1
    ensures |res| >= 1 && res[0] == value && key(res[|res| - 1]) !in paths
    ensures forall i :: 0 <= i < |res| - 1 ==> key(res[i]) in paths && res[i + 1] == paths[key(res[i])]
    ensures forall i :: 0 <= i < |res| ==> key(res[i]) in node && node[key(res[i])] == res[i]
    ensures forall i, j :: 0 <= i < j < |res| ==> depth[key(res[j])] < depth[key(res[i])]
    ensures |res| == depth[key(value)] - depth[key(res[|res| - 1])] + 1
  {
    res := [value];
    var current := value;
    while key(current) in paths
      invariant |res| >= 1 && res[0] == value && res[|res| - 1] == current
      invariant forall i :: 0 <= i < |res| - 1 ==> key(res[i]) in paths && res[i + 1] == paths[key(res[i])]
      invariant forall i :: 0 <= i < |res| ==> key(res[i]) in node && node[key(res[i])] == res[i]
      invariant forall i, j :: 0 <= i < j < |res| ==> depth[key(res[j])] < depth[key(res[i])]
      invariant |res| == depth[key(value)] - depth[key(current)] + 1
      decreases depth[key(current)]
    {
      current := paths[key(current)];
      res := res + [current];
    }
  }

  /** `aStarSearch`. The queue pops some entry of least priority
      `heur(v) + step * len`. Termination rests on a finite universe of keys
      that every node satisfying `inv` and its neighbours stay in. */
  method AStarSearch<T(==,!new), K(==)>(from: T, heur: T -> int, step: nat, goal: T -> bool, neighbours: T -> seq<T>,
                                   key: T -> K, ghost inv: T -> bool, ghost universe: set<K>)
    returns (result: Option<seq<T>>)
    requires inv(from) && key(from) in universe
    requires forall t, n {:trigger n in neighbours(t)} :: inv(t) && !goal(t) && n in neighbours(t) ==> inv(n) && key(n) in universe
    ensures goal(from) ==> result == Some([from])
    ensures result.Some? ==>
      var p := result.value;
      && |p| >= 1 && goal(p[0]) && p[|p| - 1] == from
      && (forall i :: 0 <= i < |p| - 1 ==> p[i] in neighbours(p[i + 1]))
      && (forall i, j :: 0 <= i < j < |p| ==> key(p[i]) != key(p[j]))
      && (forall i :: 0 <= i < |p| ==> inv(p[i]))
    ensures result.None? && (forall a, b :: key(a) == key(b) ==> a == b) ==>
      forall p :: IsWalk(p, neighbours) && p[0] == from ==> !goal(p[|p| - 1])
  {
    ghost var pr := Problem(from, goal, neighbours, key, inv, universe);
    assert Closed(pr);
    var closed: set<K> := {};
    var open: seq<(T, nat)> := [];
    var paths: map<K, T> := map[];

    open := open + [(from, 0)];
    closed := closed + {key(from)};
    ghost var tr := Trace(map[key(from) := from], map[key(from) := 0], {}, {});
    InitInv(pr);

    while open != []
      invariant Inv(pr, closed, open, paths, tr) && tr.expanding == {}
      invariant goal(from) ==> open == [(from, 0)] && paths == map[]
      decreases |universe| - |closed|, |open|
    {
      var i := Poll(open, heur, step);
      var peek := open[i].0;
      var len := open[i].1;

      if goal(peek) {
        var p := ReconstructPath(peek, paths, key, tr.depth, tr.node);
        GoalPathSound(pr, closed, open, paths, tr, p);
        if goal(from) {
          assert peek == from && paths == map[];
        }
        return Some(p);
      }
      assert !goal(from);

      PopKeepsInv(pr, closed, open, paths, tr, i);
      open := open[..i] + open[i + 1..];
      tr := tr.(expanding := {key(peek)});
      ghost var closed0, open0 := closed, open;
      SubsetCardinality(closed, universe);
      closed, open, paths, tr := Expand(pr, neighbours, key, closed, open, paths, tr, peek, len);
      SubsetCardinality(closed, universe);
      assert |closed| > |closed0| || |open| < |open0| + 1;
    }
    if forall a, b :: key(a) == key(b) ==> a == b {
      ExhaustedMeansNoGoal(pr, closed, paths, tr);
    }
    return None;
  }

  /** The loop over the neighbours of the popped node `peek`: every neighbour
      whose key is not yet discovered is queued with length `len + 1` and
      `peek` as its predecessor. */
  method Expand<T(!new), K>(ghost pr: Problem<T, K>, neighbours: T -> seq<T>, key: T -> K,
                            closed: set<K>, open: seq<(T, nat)>, paths: map<K, T>,
                            ghost tr: Trace<T, K>, peek: T, len: nat)
    returns (closed': set<K>, open': seq<(T, nat)>, paths': map<K, T>, ghost tr': Trace<T, K>)
    requires pr.neighbours == neighbours && pr.key == key
    requires Closed(pr) && Inv(pr, closed, open, paths, tr) && tr.expanding == {pr.key(peek)}
    requires pr.key(peek) in tr.node && tr.node[pr.key(peek)] == peek && tr.depth[pr.key(peek)] == len
    requires !pr.goal(peek)
    ensures Inv(pr, closed', open', paths', tr') && tr'.expanding == {}
    ensures |closed| <= |closed'| && |open'| - |open| == |closed'| - |closed|
  {
    closed', open', paths', tr' := closed, open, paths, tr;
    var ns := neighbours(peek);
    var j := 0;
    while j < |ns|
      invariant 0 <= j <= |ns|
      invariant Inv(pr, closed', open', paths', tr') && tr' == tr.(node := tr'.node, depth := tr'.depth)
      invariant pr.key(peek) in tr'.node && tr'.node[pr.key(peek)] == peek && tr'.depth[pr.key(peek)] == len
      invariant |closed| <= |closed'| && |open'| - |open| == |closed'| - |closed|
      invariant Processed(key, ns, j, closed')
    {
      var e := ns[j];
      ghost var before := closed';
      if key(e) !in closed' {
        closed', open', paths', tr' := Discover(pr, key, closed', open', paths', tr', peek, len, e);
      }
      ProcessedStep(key, ns, j, before, closed');
      j := j + 1;
    }
    ProcessedAll(key, ns, closed');
    FinishKeepsInv(pr, closed', open', paths', tr', peek);
    tr' := tr'.(popped := tr'.popped + {pr.key(peek)}, expanding := {});
  }

  /** Queueing the undiscovered neighbour `e` of `peek`. */
  method Discover<T(!new), K>(ghost pr: Problem<T, K>, key: T -> K,
                              closed: set<K>, open: seq<(T, nat)>, paths: map<K, T>,
                              ghost tr: Trace<T, K>, peek: T, len: nat, e: T)
    returns (closed': set<K>, open': seq<(T, nat)>, paths': map<K, T>, ghost tr': Trace<T, K>)
    requires pr.key == key
    requires Closed(pr) && Inv(pr, closed, open, paths, tr) && tr.expanding == {pr.key(peek)}
    requires pr.key(peek) in tr.node && tr.node[pr.key(peek)] == peek && tr.depth[pr.key(peek)] == len
    requires !pr.goal(peek) && e in pr.neighbours(peek) && key(e) !in closed
    ensures Inv(pr, closed', open', paths', tr') && tr' == tr.(node := tr'.node, depth := tr'.depth)
    ensures pr.key(peek) in tr'.node && tr'.node[pr.key(peek)] == peek && tr'.depth[pr.key(peek)] == len
    ensures closed' == closed + {key(e)} && |closed'| == |closed| + 1 && |open'| == |open| + 1
  {
    DiscoverKeepsInv(pr, closed, open, paths, tr, peek, len, e);
    paths' := paths[key(e) := peek];
    open' := open + [(e, len + 1)];
    closed' := closed + {key(e)};
    tr' := tr.(node := tr.node[key(e) := e], depth := tr.depth[key(e) := len + 1]);
  }

  /** The queue's ordering: the heuristic of the node plus `step` per
      command of the path that reached it. */
  function Priority<T>(e: (T, nat), heur: T -> int, step: nat): int
  {
    heur(e.0) + step * e.1
  }

  /** The head of the priority queue: some entry of least priority. Which
      one of several equal entries comes first is left open, as the queue's
      internal order is. */
  method Poll<T>(open: seq<(T, nat)>, heur: T -> int, step: nat) returns (i: nat)
    requires |open| > 0
    ensures i < |open| && forall j :: 0 <= j < |open| ==> Priority(open[i], heur, step) <= Priority(open[j], heur, step)
  {
    var least := ArgMin(open, heur, step);
    i :| i < |open| && forall j :: 0 <= j < |open| ==> Priority(open[i], heur, step) <= Priority(open[j], heur, step);
  }

  /** The index of an entry of least priority in a non-empty queue. */
  function ArgMin<T>(s: seq<(T, nat)>, heur: T -> int, step: nat): (i: nat)
    requires |s| > 0
    ensures i < |s| && forall j :: 0 <= j < |s| ==> Priority(s[i], heur, step) <= Priority(s[j], heur, step)
  {
    if |s| == 1 then 0
    else
      var m := ArgMin(s[1..], heur, step);
      if Priority(s[0], heur, step) <= Priority(s[1..][m], heur, step) then 0 else m + 1
  }

  // ----- `RobotAndCommand` -----

  /** A search node pairing a robot with the command that produced it. */
  datatype RobotAndCommand = RobotAndCommand(robot: Robot, command: Command)

  /** What `RobotAndCommand.equals` and `hashCode` look at. */
  function RobotAndCommandKey(n: RobotAndCommand): (Point, Orientation)
  {
    (n.robot.pos, n.robot.orientation)
  }

  /** Two nodes are the same search node exactly when their robots share
      position and orientation; the command, the manipulators and the active
      boosters play no part. */
  lemma RobotAndCommandIdentity(a: RobotAndCommand, b: RobotAndCommand)
    ensures RobotAndCommandKey(a) == RobotAndCommandKey(b) <==>
      a.robot.pos == b.robot.pos && a.robot.orientation == b.robot.orientation
    ensures RobotAndCommandKey(a) == RobotAndCommandKey(RobotAndCommand(a.robot.(manipulators := b.robot.manipulators,
                                                        activeBoosters := b.robot.activeBoosters), b.command))
  {
  }
}
