/** The invariant of the search loop of player/AStar.kt, kept apart from the
    search so that the loop's proof obligations see it as one fact. */
module SearchInvariant {
  /** The keys of the nodes waiting in the queue. */
  ghost function KeysOf<T, K>(open: seq<(T, nat)>, key: T -> K): set<K>
  {
    set e | e in open :: key(e.0)
  }

  lemma RemoveFromOpen<T, K>(open: seq<(T, nat)>, i: nat, key: T -> K)
    requires i < |open|
    ensures forall e :: e in open[..i] + open[i + 1..] ==> e in open
    ensures forall k :: k in KeysOf(open, key) ==> k == key(open[i].0) || k in KeysOf(open[..i] + open[i + 1..], key)
  {
    var rest := open[..i] + open[i + 1..];
    forall k | k in KeysOf(open, key)
      ensures k == key(open[i].0) || k in KeysOf(rest, key)
    {
      var e :| e in open && key(e.0) == k;
      var j :| 0 <= j < |open| && open[j] == e;
      if j < i {
        assert rest[j] == e;
      } else if j > i {
        assert rest[j - 1] == e;
      }
    }
  }

  /** A walk along the neighbour relation. */
  ghost predicate IsWalk<T>(p: seq<T>, neighbours: T -> seq<T>)
  {
    |p| >= 1 && forall i :: 0 <= i < |p| - 1 ==> p[i + 1] in neighbours(p[i])
  }

  /** A node set that contains `p[0]` and every neighbour of its members
      contains the whole walk. */
  lemma {:induction false} ClosedSetContainsWalk<T>(S: set<T>, p: seq<T>, neighbours: T -> seq<T>, n: nat)
    requires IsWalk(p, neighbours) && p[0] in S && n < |p|
    requires forall t, u :: t in S && u in neighbours(t) ==> u in S
    ensures p[n] in S
  {
    if n > 0 {
      ClosedSetContainsWalk(S, p, neighbours, n - 1);
    }
  }

  /** The fixed inputs of one search. */
  datatype Problem<!T, K> = Problem(from: T, goal: T -> bool, neighbours: T -> seq<T>, key: T -> K,
                                   inv: T -> bool, universe: set<K>)

  /** Ghost bookkeeping of a search: the node stored for each discovered
      key, its queue length, the keys already expanded, and the key being
      expanded right now (if any). */
  datatype Trace<T, K> = Trace(node: map<K, T>, depth: map<K, nat>, popped: set<K>, expanding: set<K>)

  /** Every non-goal node satisfying `inv` has neighbours satisfying `inv`
      whose keys lie in the finite universe. */
  ghost predicate Closed<T(!new), K>(pr: Problem<T, K>)
  {
    forall t, n {:trigger n in pr.neighbours(t)} :: pr.inv(t) && !pr.goal(t) && n in pr.neighbours(t) ==> pr.inv(n) && pr.key(n) in pr.universe
  }

  /** Discovered keys, their stored nodes and lengths; `from` is the root. */
  ghost predicate InvNodes<T, K>(pr: Problem<T, K>, closed: set<K>, paths: map<K, T>, tr: Trace<T, K>)
  {
    var key := pr.key;
    && closed <= pr.universe
    && (forall k :: k in closed ==> k in tr.node && k in tr.depth)
    && (forall k :: k in tr.node ==> k in closed)
    && (forall k :: k in tr.depth ==> k in closed)
    && (forall k :: k in tr.node ==> key(tr.node[k]) == k && pr.inv(tr.node[k]))
    && key(pr.from) in tr.node && tr.node[key(pr.from)] == pr.from && tr.depth[key(pr.from)] == 0
    && key(pr.from) !in paths
  }

  /** Each predecessor link joins two discovered nodes one step apart. */
  ghost predicate InvPaths<T, K>(pr: Problem<T, K>, paths: map<K, T>, tr: Trace<T, K>)
  {
    var key := pr.key;
    && (forall k :: k in paths ==>
          && k in tr.node && k in tr.depth && key(paths[k]) in tr.node && key(paths[k]) in tr.depth
          && tr.node[key(paths[k])] == paths[k]
          && tr.node[k] in pr.neighbours(paths[k]) && tr.depth[k] == tr.depth[key(paths[k])] + 1)
    && (forall k {:trigger k in paths} :: k in tr.node && k != key(pr.from) ==> k in paths)
  }

  /** Queue entries are discovered nodes with their lengths. */
  ghost predicate InvOpen<T, K>(pr: Problem<T, K>, open: seq<(T, nat)>, tr: Trace<T, K>)
  {
    forall e :: e in open ==> pr.key(e.0) in tr.node && pr.key(e.0) in tr.depth && tr.node[pr.key(e.0)] == e.0 && tr.depth[pr.key(e.0)] == e.1
  }

  /** Expanded keys are not goals and have all their neighbours discovered;
      every discovered key is expanded, being expanded, or queued. */
  ghost predicate InvPopped<T, K>(pr: Problem<T, K>, closed: set<K>, open: seq<(T, nat)>, tr: Trace<T, K>)
  {
    && tr.popped + tr.expanding <= closed
    && (forall k :: k in tr.popped + tr.expanding ==> k in tr.node && !pr.goal(tr.node[k]))
    && (forall k, n {:trigger n in pr.neighbours(tr.node[k])} :: k in tr.popped && k in tr.node && n in pr.neighbours(tr.node[k]) ==> pr.key(n) in closed)
    && (forall k :: k in closed ==> k in tr.popped || k in tr.expanding || k in KeysOf(open, pr.key))
  }

  ghost predicate Inv<T, K>(pr: Problem<T, K>, closed: set<K>, open: seq<(T, nat)>, paths: map<K, T>, tr: Trace<T, K>)
  {
    InvNodes(pr, closed, paths, tr) && InvPaths(pr, paths, tr) && InvOpen(pr, open, tr) && InvPopped(pr, closed, open, tr)
  }

  lemma InitInv<T, K>(pr: Problem<T, K>)
    requires pr.key(pr.from) in pr.universe
    requires pr.inv(pr.from)
    ensures Inv(pr, {pr.key(pr.from)}, [(pr.from, 0)], map[],
                Trace(map[pr.key(pr.from) := pr.from], map[pr.key(pr.from) := 0], {}, {}))
  {
    assert pr.key(pr.from) in KeysOf([(pr.from, 0)], pr.key);
  }

  /** Taking entry i off the queue to expand it. */
  lemma PopKeepsInv<T, K>(pr: Problem<T, K>, closed: set<K>, open: seq<(T, nat)>, paths: map<K, T>,
                          tr: Trace<T, K>, i: nat)
    requires Inv(pr, closed, open, paths, tr) && tr.expanding == {}
    requires i < |open| && !pr.goal(open[i].0)
    ensures Inv(pr, closed, open[..i] + open[i + 1..], paths, tr.(expanding := {pr.key(open[i].0)}))
  {
    RemoveFromOpen(open, i, pr.key);
  }

  /** Discovering a new neighbour `e` of the node being expanded. */
  lemma DiscoverKeepsInv<T(!new), K>(pr: Problem<T, K>, closed: set<K>, open: seq<(T, nat)>, paths: map<K, T>,
                                     tr: Trace<T, K>, peek: T, len: nat, e: T)
    requires Closed(pr) && Inv(pr, closed, open, paths, tr) && tr.expanding == {pr.key(peek)}
    requires pr.key(peek) in tr.node && tr.node[pr.key(peek)] == peek && tr.depth[pr.key(peek)] == len
    requires !pr.goal(peek) && e in pr.neighbours(peek) && pr.key(e) !in closed
    ensures Inv(pr, closed + {pr.key(e)}, open + [(e, len + 1)], paths[pr.key(e) := peek],
                tr.(node := tr.node[pr.key(e) := e], depth := tr.depth[pr.key(e) := len + 1]))
  {
    DiscoverKeepsNodes(pr, closed, paths, tr, peek, len, e);
    DiscoverKeepsQueue(pr, closed, open, paths, tr, peek, len, e);
  }

  lemma DiscoverKeepsNodes<T(!new), K>(pr: Problem<T, K>, closed: set<K>, paths: map<K, T>,
                                       tr: Trace<T, K>, peek: T, len: nat, e: T)
    requires Closed(pr) && InvNodes(pr, closed, paths, tr) && InvPaths(pr, paths, tr)
    requires pr.key(peek) in tr.node && tr.node[pr.key(peek)] == peek && tr.depth[pr.key(peek)] == len
    requires !pr.goal(peek) && e in pr.neighbours(peek) && pr.key(e) !in closed
    ensures var k := pr.key(e);
      var tr' := tr.(node := tr.node[k := e], depth := tr.depth[k := len + 1]);
      InvNodes(pr, closed + {k}, paths[k := peek], tr') && InvPaths(pr, paths[k := peek], tr')
  {
    assert pr.inv(peek);
    assert pr.inv(e) && pr.key(e) in pr.universe;
  }

  lemma DiscoverKeepsQueue<T, K>(pr: Problem<T, K>, closed: set<K>, open: seq<(T, nat)>, paths: map<K, T>,
                                 tr: Trace<T, K>, peek: T, len: nat, e: T)
    requires InvNodes(pr, closed, paths, tr) && InvOpen(pr, open, tr) && InvPopped(pr, closed, open, tr)
    requires tr.expanding == {pr.key(peek)} && pr.key(e) !in closed
    ensures var k := pr.key(e);
      var tr' := tr.(node := tr.node[k := e], depth := tr.depth[k := len + 1]);
      InvOpen(pr, open + [(e, len + 1)], tr') && InvPopped(pr, closed + {k}, open + [(e, len + 1)], tr')
  {
    var open' := open + [(e, len + 1)];
    assert pr.key(e) in KeysOf(open', pr.key);
    forall k0 | k0 in KeysOf(open, pr.key)
      ensures k0 in KeysOf(open', pr.key)
    {
      var x :| x in open && pr.key(x.0) == k0;
      assert x in open';
    }
  }

  /** The first `j` neighbours of the node being expanded are discovered. */
  ghost predicate Processed<T, K>(key: T -> K, ns: seq<T>, j: nat, closed: set<K>)
  {
    j <= |ns| && forall m :: 0 <= m < j ==> key(ns[m]) in closed
  }

  lemma ProcessedStep<T, K>(key: T -> K, ns: seq<T>, j: nat, closed: set<K>, closed': set<K>)
    requires Processed(key, ns, j, closed) && j < |ns|
    requires forall k :: k in closed ==> k in closed'
    requires key(ns[j]) in closed'
    ensures Processed(key, ns, j + 1, closed')
  {
  }

  lemma ProcessedAll<T, K>(key: T -> K, ns: seq<T>, closed: set<K>)
    requires Processed(key, ns, |ns|, closed)
    ensures forall n :: n in ns ==> key(n) in closed
  {
  }

  /** Ending the expansion once every neighbour is discovered. */
  lemma FinishKeepsInv<T, K>(pr: Problem<T, K>, closed: set<K>, open: seq<(T, nat)>, paths: map<K, T>,
                             tr: Trace<T, K>, peek: T)
    requires Inv(pr, closed, open, paths, tr) && tr.expanding == {pr.key(peek)}
    requires pr.key(peek) in tr.node && tr.node[pr.key(peek)] == peek
    requires forall n :: n in pr.neighbours(peek) ==> pr.key(n) in closed
    ensures Inv(pr, closed, open, paths, tr.(popped := tr.popped + {pr.key(peek)}, expanding := {}))
  {
  }

  /** The path rebuilt from a popped goal node is sound. */
  lemma GoalPathSound<T, K>(pr: Problem<T, K>, closed: set<K>, open: seq<(T, nat)>, paths: map<K, T>,
                            tr: Trace<T, K>, p: seq<T>)
    requires Inv(pr, closed, open, paths, tr)
    requires |p| >= 1 && pr.key(p[|p| - 1]) !in paths
    requires forall i :: 0 <= i < |p| - 1 ==> pr.key(p[i]) in paths && p[i + 1] == paths[pr.key(p[i])]
    requires forall i :: 0 <= i < |p| ==> pr.key(p[i]) in tr.node && tr.node[pr.key(p[i])] == p[i]
    requires forall i, j :: 0 <= i < j < |p| ==> tr.depth[pr.key(p[j])] < tr.depth[pr.key(p[i])]
    ensures p[|p| - 1] == pr.from
    ensures forall i :: 0 <= i < |p| - 1 ==> p[i] in pr.neighbours(p[i + 1])
    ensures forall i, j :: 0 <= i < j < |p| ==> pr.key(p[i]) != pr.key(p[j])
    ensures forall i :: 0 <= i < |p| ==> pr.inv(p[i])
    ensures paths == map[] ==> p == [p[0]]
  {
    if paths == map[] {
      assert pr.key(p[0]) !in paths;
    }
    forall i | 0 <= i < |p| - 1
      ensures p[i] in pr.neighbours(p[i + 1])
    {
      assert tr.node[pr.key(p[i])] == p[i];
    }
  }

  /** With an exhausted queue and an injective key, no walk from `from`
      reaches a goal. */
  lemma ExhaustedMeansNoGoal<T, K>(pr: Problem<T, K>, closed: set<K>, paths: map<K, T>, tr: Trace<T, K>)
    requires Inv(pr, closed, [], paths, tr) && tr.expanding == {}
    requires forall a, b :: pr.key(a) == pr.key(b) ==> a == b
    ensures forall p :: IsWalk(p, pr.neighbours) && p[0] == pr.from ==> !pr.goal(p[|p| - 1])
  {
    var S := set k | k in tr.popped :: tr.node[k];
    forall t, u | t in S && u in pr.neighbours(t)
      ensures u in S
    {
      var k :| k in tr.popped && tr.node[k] == t;
      assert pr.key(u) in closed;
      assert pr.key(u) in tr.popped;
      var v := tr.node[pr.key(u)];
      assert pr.key(v) == pr.key(u);
      KeyInjective(pr.key, v, u);
      assert v in S;
    }
    forall p | IsWalk(p, pr.neighbours) && p[0] == pr.from
      ensures !pr.goal(p[|p| - 1])
    {
      assert pr.key(pr.from) in tr.popped;
      ClosedSetContainsWalk(S, p, pr.neighbours, |p| - 1);
    }
  }

  lemma KeyInjective<T, K>(key: T -> K, a: T, b: T)
    requires forall x, y :: key(x) == key(y) ==> x == y
    requires key(a) == key(b)
    ensures a == b
  {
  }

  lemma SubsetCardinality<K>(a: set<K>, b: set<K>)
    requires a <= b
    ensures |a| <= |b|
  {
    assert b == a + (b - a);
  }
}
