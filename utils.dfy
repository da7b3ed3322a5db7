/** Counters keyed by booster kind (or any key): the mutable `inc` of
    util/Util.kt and the immutable `inc`/`dec` that the simulator applies to
    its inventories. An absent key counts as 0. */
module Utils {

  /** The count recorded for `k`, 0 when absent. */
  function Count<K>(m: map<K, int>, k: K): int
  {
    if k in m then m[k] else 0
  }

  /** Immutable increment: the count of `k` goes up by one. */
  function Incremented<K>(m: map<K, int>, k: K): (r: map<K, int>)
    ensures r.Keys == m.Keys + {k}
  {
    m[k := Count(m, k) + 1]
  }

  /** Immutable decrement: the count of `k` goes down by one and the key is
      dropped once its count is no longer positive. */
  function Decremented<K>(m: map<K, int>, k: K): (r: map<K, int>)
    ensures r.Keys <= m.Keys
  {
    if Count(m, k) - 1 <= 0 then m - {k} else m[k := m[k] - 1]
  }

  /** Every recorded count is positive, so membership means "at least one". */
  ghost predicate Positive<K>(m: map<K, int>)
  {
    forall k :: k in m ==> m[k] > 0
  }

  lemma IncSpec<K>(m: map<K, int>, k: K)
    ensures k !in m ==> Incremented(m, k)[k] == 1
    ensures k in m ==> Incremented(m, k)[k] == m[k] + 1
    ensures forall j :: j != k ==> Count(Incremented(m, k), j) == Count(m, j)
    ensures |Incremented(m, k).Keys - m.Keys| <= 1
    ensures Positive(m) ==> Positive(Incremented(m, k))
  {
    if k in m {
      assert Incremented(m, k).Keys - m.Keys == {};
    } else {
      assert Incremented(m, k).Keys - m.Keys == {k};
    }
  }

  lemma DecSpec<K>(m: map<K, int>, k: K)
    requires Positive(m)
    ensures Positive(Decremented(m, k))
    ensures Count(Decremented(m, k), k) == if k in m then m[k] - 1 else 0
    ensures k in Decremented(m, k) <==> k in m && m[k] > 1
    ensures forall j :: j != k ==> Count(Decremented(m, k), j) == Count(m, j)
  {
  }

  /** Every non-empty finite set has an element where `f` is least, as
      `minBy` finds. */
  lemma {:induction false} LeastExists<T>(s: set<T>, f: T -> int)
    requires s != {}
    ensures exists p :: p in s && forall q :: q in s ==> f(p) <= f(q)
  {
    var p :| p in s;
    if s != {p} {
      var rest := s - {p};
      LeastExists(rest, f);
      var best :| best in rest && forall q :: q in rest ==> f(best) <= f(q);
      assert forall q :: q in s ==> q == p || q in rest;
      if f(p) <= f(best) {
        assert forall q :: q in s ==> f(p) <= f(q);
      } else {
        assert forall q :: q in s ==> f(best) <= f(q);
      }
    }
  }

  /** `minBy` over a set whose iteration order is not fixed: some element
      where `f` is least. */
  method LeastBy<T>(s: set<T>, f: T -> int) returns (p: T)
    requires s != {}
    ensures p in s && forall q :: q in s ==> f(p) <= f(q)
  {
    LeastExists(s, f);
    p :| p in s && forall q :: q in s ==> f(p) <= f(q);
  }

  /** The map that `inc` of util/Util.kt updates in place. */
  class MutableCounter<K(==)> {
    var entries: map<K, int>

    constructor ()
      ensures entries == map[]
    {
      entries := map[];
    }

    method Inc(key: K)
      modifies this
      ensures entries == Incremented(old(entries), key)
      ensures entries[key] == Count(old(entries), key) + 1
      ensures forall j :: j != key ==> Count(entries, j) == Count(old(entries), j)
    {
      var value := if key in entries then entries[key] else 0;
      entries := entries[key := value + 1];
    }
  }
}
