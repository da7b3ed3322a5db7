/** The union-find of util/DisjointSets.java: a map from elements to nodes,
    each node holding a parent link and a rank; `root` compresses paths and
    `join` links by rank. The nodes live in an arena: node `n` is index `n`
    of `parent` and `rank`, and a parent link is an index. */
module DisjointSets {

  /** The largest rank: an upper bound for the walk towards a root. */
  function MaxRank(rank: seq<nat>): (r: nat)
    ensures forall i :: 0 <= i < |rank| ==> rank[i] <= r
  {
    if rank == [] then 0
    else
      var m := MaxRank(rank[1..]);
      assert forall i :: 1 <= i < |rank| ==> rank[i] == rank[1..][i - 1];
      if rank[0] > m then rank[0] else m
  }

  /** Parent links stay inside the arena, and a parent's rank exceeds its
      child's, so every walk along parents ends at a root. */
  ghost predicate WellRanked(parent: seq<nat>, rank: seq<nat>)
  {
    && |parent| == |rank|
    && (forall i :: 0 <= i < |parent| ==> parent[i] < |parent|)
    && (forall i :: 0 <= i < |parent| && parent[i] != i ==> rank[i] < rank[parent[i]])
  }

  /** The representative of `n`: the root its parent links lead to. */
  ghost function FindIn(parent: seq<nat>, rank: seq<nat>, n: nat): (r: nat)
    requires WellRanked(parent, rank) && n < |parent|
    ensures r < |parent| && parent[r] == r
    ensures r == n || rank[n] < rank[r]
    decreases MaxRank(rank) - rank[n]
  {
    if parent[n] == n then n else FindIn(parent, rank, parent[n])
  }

  ghost function RootsOf(parent: seq<nat>): set<nat>
  {
    set n | 0 <= n < |parent| && parent[n] == n
  }

  /** Pointing `n` straight at its representative changes no node's
      representative. */
  lemma {:induction false} CompressKeepsAt(parent: seq<nat>, rank: seq<nat>, n: nat, k: nat)
    requires WellRanked(parent, rank) && n < |parent| && k < |parent|
    requires WellRanked(parent[n := FindIn(parent, rank, n)], rank)
    ensures FindIn(parent[n := FindIn(parent, rank, n)], rank, k) == FindIn(parent, rank, k)
    decreases MaxRank(rank) - rank[k]
  {
    var p := parent[n := FindIn(parent, rank, n)];
    if parent[k] != k && k != n {
      CompressKeepsAt(parent, rank, n, parent[k]);
    }
  }

  lemma CompressKeeps(parent: seq<nat>, rank: seq<nat>, n: nat)
    requires WellRanked(parent, rank) && n < |parent|
    ensures WellRanked(parent[n := FindIn(parent, rank, n)], rank)
    ensures forall k :: 0 <= k < |parent| ==>
      FindIn(parent[n := FindIn(parent, rank, n)], rank, k) == FindIn(parent, rank, k)
    ensures RootsOf(parent[n := FindIn(parent, rank, n)]) == RootsOf(parent)
  {
    var p := parent[n := FindIn(parent, rank, n)];
    forall k | 0 <= k < |parent|
      ensures FindIn(p, rank, k) == FindIn(parent, rank, k)
    {
      CompressKeepsAt(parent, rank, n, k);
    }
  }

  /** Linking root `lo` under root `hi`: the nodes that led to `lo` now lead
      to `hi`, every other representative stays. */
  lemma {:induction false} LinkFindAt(parent: seq<nat>, rank: seq<nat>, lo: nat, hi: nat, rank2: seq<nat>, k: nat)
    requires WellRanked(parent, rank) && lo < |parent| && hi < |parent| && k < |parent|
    requires parent[lo] == lo && parent[hi] == hi && lo != hi
    requires WellRanked(parent[lo := hi], rank2)
    ensures FindIn(parent[lo := hi], rank2, k) ==
      if FindIn(parent, rank, k) == lo then hi else FindIn(parent, rank, k)
    decreases MaxRank(rank) - rank[k]
  {
    if parent[k] != k {
      LinkFindAt(parent, rank, lo, hi, rank2, parent[k]);
    }
  }

  lemma LinkFind(parent: seq<nat>, rank: seq<nat>, lo: nat, hi: nat, rank2: seq<nat>)
    requires WellRanked(parent, rank) && lo < |parent| && hi < |parent|
    requires parent[lo] == lo && parent[hi] == hi && lo != hi
    requires WellRanked(parent[lo := hi], rank2)
    ensures forall k :: 0 <= k < |parent| ==>
      (FindIn(parent[lo := hi], rank2, k) == if FindIn(parent, rank, k) == lo then hi else FindIn(parent, rank, k))
    ensures RootsOf(parent[lo := hi]) == RootsOf(parent) - {lo}
    ensures |RootsOf(parent[lo := hi])| == |RootsOf(parent)| - 1
  {
    forall k | 0 <= k < |parent|
      ensures FindIn(parent[lo := hi], rank2, k) ==
        if FindIn(parent, rank, k) == lo then hi else FindIn(parent, rank, k)
    {
      LinkFindAt(parent, rank, lo, hi, rank2, k);
    }
    assert lo in RootsOf(parent);
    assert RootsOf(parent[lo := hi]) == RootsOf(parent) - {lo};
  }

  /** Linking by rank keeps a parent's rank above its child's. */
  lemma LinkWellRanked(parent: seq<nat>, rank: seq<nat>, lo: nat, hi: nat, rank2: seq<nat>)
    requires WellRanked(parent, rank) && lo < |parent| && hi < |parent|
    requires parent[lo] == lo && parent[hi] == hi && lo != hi
    requires (rank[lo] < rank[hi] && rank2 == rank) || (rank[lo] == rank[hi] && rank2 == rank[hi := rank[hi] + 1])
    ensures WellRanked(parent[lo := hi], rank2)
  {
  }

  /** A new root node changes no representative. */
  lemma ExtendKeeps(parent: seq<nat>, rank: seq<nat>)
    requires WellRanked(parent, rank)
    ensures WellRanked(parent + [|parent|], rank + [0])
    ensures forall k :: 0 <= k < |parent| ==> FindIn(parent + [|parent|], rank + [0], k) == FindIn(parent, rank, k)
  {
    forall k | 0 <= k < |parent|
      ensures FindIn(parent + [|parent|], rank + [0], k) == FindIn(parent, rank, k)
    {
      ExtendKeepsAt(parent, rank, k);
    }
  }

  lemma {:induction false} ExtendKeepsAt(parent: seq<nat>, rank: seq<nat>, k: nat)
    requires WellRanked(parent, rank) && WellRanked(parent + [|parent|], rank + [0]) && k < |parent|
    ensures FindIn(parent + [|parent|], rank + [0], k) == FindIn(parent, rank, k)
    decreases MaxRank(rank) - rank[k]
  {
    if parent[k] != k {
      ExtendKeepsAt(parent, rank, parent[k]);
    }
  }

  /** Partition `r2` is at least as coarse as `r`: it knows every element
      `r` knows, and elements together in `r` stay together. */
  ghost predicate Coarser<E>(r: map<E, nat>, r2: map<E, nat>)
  {
    && r.Keys <= r2.Keys
    && forall a, b :: a in r && b in r && r[a] == r[b] ==> r2[a] == r2[b]
  }

  /** Each element's representative, for an element-to-node map. */
  ghost function RepOf<E>(index: map<E, nat>, parent: seq<nat>, rank: seq<nat>): map<E, nat>
    requires WellRanked(parent, rank) && forall e :: e in index ==> index[e] < |parent|
  {
    map e | e in index :: FindIn(parent, rank, index[e])
  }

  lemma RepOfSame<E>(index: map<E, nat>, parent: seq<nat>, rank: seq<nat>, parent2: seq<nat>, rank2: seq<nat>)
    requires WellRanked(parent, rank) && WellRanked(parent2, rank2) && |parent| == |parent2|
    requires forall e :: e in index ==> index[e] < |parent|
    requires forall k :: 0 <= k < |parent| ==> FindIn(parent2, rank2, k) == FindIn(parent, rank, k)
    ensures RepOf(index, parent2, rank2) == RepOf(index, parent, rank)
  {
  }

  /** Node-level coarsening lifts to the element level: when every two
      nodes with one root in the first forest have one root in the second,
      the element partition only gets coarser. */
  lemma RepOfMerged<E>(index: map<E, nat>, parent: seq<nat>, rank: seq<nat>, parent2: seq<nat>, rank2: seq<nat>)
    requires WellRanked(parent, rank) && WellRanked(parent2, rank2) && |parent| == |parent2|
    requires forall e :: e in index ==> index[e] < |parent|
    requires forall i, j :: 0 <= i < |parent| && 0 <= j < |parent| && FindIn(parent, rank, i) == FindIn(parent, rank, j) ==>
      FindIn(parent2, rank2, i) == FindIn(parent2, rank2, j)
    ensures Coarser(RepOf(index, parent, rank), RepOf(index, parent2, rank2))
    ensures RepOf(index, parent2, rank2).Keys == RepOf(index, parent, rank).Keys
  {
    var r1, r2 := RepOf(index, parent, rank), RepOf(index, parent2, rank2);
    forall x, y | x in r1 && y in r1 && r1[x] == r1[y]
      ensures r2[x] == r2[y]
    {
      var i, j := index[x], index[y];
      assert r1[x] == FindIn(parent, rank, i) && r1[y] == FindIn(parent, rank, j);
      assert r2[x] == FindIn(parent2, rank2, i) && r2[y] == FindIn(parent2, rank2, j);
    }
  }

  class DisjointSets<E(==)> {
    /** The element-to-node map. */
    var index: map<E, nat>
    /** Node `n`'s parent link. */
    var parent: seq<nat>
    /** Node `n`'s rank. */
    var rank: seq<nat>

    ghost predicate Valid()
      reads this
    {
      WellRanked(parent, rank) && forall e :: e in index ==> index[e] < |parent|
    }

    ghost function Find(n: nat): nat
      reads this
      requires Valid() && n < |parent|
    {
      FindIn(parent, rank, n)
    }

    /** Each present element's representative. */
    ghost function Rep(): map<E, nat>
      reads this
      requires Valid()
    {
      RepOf(index, parent, rank)
    }

    /** The nodes that are roots: one per set. */
    ghost function Roots(): set<nat>
      reads this
    {
      RootsOf(parent)
    }

    constructor ()
      ensures Valid() && index == map[] && parent == [] && rank == []
    {
      index := map[];
      parent := [];
      rank := [];
    }

    /** `add`: false, and nothing changes, for an element already present;
        otherwise the element gets a fresh root node of rank 0. */
    method Add(e: E) returns (added: bool)
      requires Valid()
      modifies this
      ensures Valid()
      ensures added <==> e !in old(index)
      ensures !added ==> index == old(index) && parent == old(parent) && rank == old(rank)
      ensures added ==>
        (index == old(index)[e := |old(parent)|] && parent == old(parent) + [|old(parent)|] && rank == old(rank) + [0])
      ensures forall k :: 0 <= k < |old(parent)| ==> Find(k) == old(Find(k))
      ensures Contains(e)
      ensures Rep().Keys == old(Rep()).Keys + {e} && Coarser(old(Rep()), Rep())
    {
      if e in index {
        return false;
      }
      ghost var before := parent;
      index := index[e := |parent|];
      parent := parent + [|parent|];
      rank := rank + [0];
      ExtendKeeps(before, old(rank));
      return true;
    }

    /** `Node.root`: the representative of `n`, pointing `n` (and, on the
        way, every node above it) straight at it. No representative
        changes. */
    method Root(n: nat) returns (r: nat)
      requires Valid() && n < |parent|
      modifies this
      ensures Valid() && index == old(index) && rank == old(rank) && |parent| == |old(parent)|
      ensures r == old(Find(n)) && parent[n] == r
      ensures forall k :: 0 <= k < |parent| ==> Find(k) == old(Find(k))
      ensures Roots() == old(Roots())
      ensures forall k :: 0 <= k < |parent| && rank[k] < rank[n] ==> parent[k] == old(parent[k])
      decreases MaxRank(rank) - rank[n]
    {
      if parent[n] != n {
        var p := Root(parent[n]);
        CompressKeeps(parent, rank, n);
        parent := parent[n := p];
      }
      r := parent[n];
    }

    /** `Node.join`: false when both nodes already share a root; otherwise
        the root of lower rank goes under the other (on equal ranks the
        first under the second, whose rank grows by one), the two sets
        become one and the number of roots drops by one. */
    method Join(a: nat, b: nat) returns (joined: bool)
      requires Valid() && a < |parent| && b < |parent|
      modifies this
      ensures Valid() && index == old(index) && |parent| == |old(parent)|
      ensures joined <==> old(Find(a)) != old(Find(b))
      ensures forall k :: 0 <= k < |parent| ==>
        Find(k) == if old(Find(k)) == old(Find(a)) || old(Find(k)) == old(Find(b)) then Find(b) else old(Find(k))
      ensures Find(a) == Find(b)
      ensures joined ==> |Roots()| == |old(Roots())| - 1
      ensures !joined ==> Roots() == old(Roots())
    {
      var x := Root(a);
      var y := Root(b);
      if x == y {
        return false;
      }
      Link(x, y);
      return true;
    }

    /** The linking half of `join`, for two distinct roots: the root of
        lower rank goes under the other; on equal ranks `x` goes under `y`
        and `y`'s rank grows by one. */
    method Link(x: nat, y: nat)
      requires Valid() && x < |parent| && y < |parent| && x != y
      requires parent[x] == x && parent[y] == y
      modifies this
      ensures Valid() && index == old(index) && |parent| == |old(parent)|
      ensures Find(y) == Find(x) && (Find(y) == x || Find(y) == y)
      ensures forall k :: 0 <= k < |parent| ==>
        Find(k) == if old(Find(k)) == x || old(Find(k)) == y then Find(y) else old(Find(k))
      ensures |Roots()| == |old(Roots())| - 1
    {
      if rank[x] > rank[y] {
        LinkWellRanked(parent, rank, y, x, rank);
        LinkFind(parent, rank, y, x, rank);
        parent := parent[y := x];
      } else {
        var rank2 := if rank[x] == rank[y] then rank[y := rank[y] + 1] else rank;
        LinkWellRanked(parent, rank, x, y, rank2);
        LinkFind(parent, rank, x, y, rank2);
        parent := parent[x := y];
        rank := rank2;
      }
    }

    /** `contains`: the element was added since the last `clear`. */
    predicate Contains(e: E)
      reads this
    {
      e in index
    }

    /** `inSameSet`: false when either element is absent; otherwise whether
        they share a representative. Representatives stay as they were. */
    method InSameSet(e1: E, e2: E) returns (r: bool)
      requires Valid()
      modifies this
      ensures Valid() && index == old(index) && |parent| == |old(parent)|
      ensures r <==> e1 in index && e2 in index && old(Find(index[e1])) == old(Find(index[e2]))
      ensures forall k :: 0 <= k < |parent| ==> Find(k) == old(Find(k))
      ensures Roots() == old(Roots())
    {
      if e1 !in index || e2 !in index {
        return false;
      }
      var x1 := Root(index[e1]);
      var x2 := Root(index[e2]);
      r := x1 == x2;
    }

    /** `union`: false when either element is absent; otherwise `join` of
        their nodes. */
    method Union(e1: E, e2: E) returns (r: bool)
      requires Valid()
      modifies this
      ensures Valid() && index == old(index) && |parent| == |old(parent)|
      ensures r <==> e1 in index && e2 in index && old(Find(index[e1])) != old(Find(index[e2]))
      ensures e1 in index && e2 in index ==> Find(index[e1]) == Find(index[e2])
      ensures forall k :: 0 <= k < |parent| ==>
        if e1 in index && e2 in index && (old(Find(k)) == old(Find(index[e1])) || old(Find(k)) == old(Find(index[e2])))
        then Find(k) == Find(index[e2]) else Find(k) == old(Find(k))
      ensures r ==> |Roots()| == |old(Roots())| - 1
      ensures !r ==> Roots() == old(Roots())
      ensures forall i, j :: 0 <= i < |parent| && 0 <= j < |parent| && old(Find(i)) == old(Find(j)) ==> Find(i) == Find(j)
      ensures Rep().Keys == old(Rep()).Keys && Coarser(old(Rep()), Rep())
      ensures e1 in index && e2 in index ==> Rep()[e1] == Rep()[e2]
    {
      if e1 !in index || e2 !in index {
        return false;
      }
      ghost var parent0, rank0 := parent, rank;
      r := Join(index[e1], index[e2]);
      forall i, j | 0 <= i < |parent| && 0 <= j < |parent| && FindIn(parent0, rank0, i) == FindIn(parent0, rank0, j)
        ensures FindIn(parent, rank, i) == FindIn(parent, rank, j)
      {
        assert old(Find(i)) == old(Find(j));
      }
      RepOfMerged(index, parent0, rank0, parent, rank);
    }

    /** `root(e)`: the representative node of a present element. */
    method RootOf(e: E) returns (r: nat)
      requires Valid() && e in index
      modifies this
      ensures Valid() && index == old(index) && |parent| == |old(parent)|
      ensures r == old(Find(index[e]))
      ensures forall k :: 0 <= k < |parent| ==> Find(k) == old(Find(k))
      ensures Roots() == old(Roots())
      ensures Rep() == old(Rep()) && r == Rep()[e]
    {
      ghost var parent0, rank0 := parent, rank;
      r := Root(index[e]);
      forall k | 0 <= k < |parent|
        ensures FindIn(parent, rank, k) == FindIn(parent0, rank0, k)
      {
        assert Find(k) == old(Find(k));
      }
      RepOfSame(index, parent0, rank0, parent, rank);
    }

    /** `clear`: every element is forgotten. */
    method Clear()
      requires Valid()
      modifies this
      ensures Valid() && index == map[] && parent == [] && rank == []
      ensures forall e :: !Contains(e)
    {
      index := map[];
      parent := [];
      rank := [];
    }
  }
}
