/** The generator's booster placement: cells of the `mapSize` square are
    handed out in scan order (`v0` outer, `v1` inner), skipping walls and
    cells an earlier call already handed out. */
module BusterGen {
  import opened Wrappers
  import opened Maps
  import GenParameters

  // ----- scan order -----

  /** Scan order: by `x`, then by `y`. */
  predicate Before(p: Point, q: Point)
  {
    p.x < q.x || (p.x == q.x && p.y < q.y)
  }

  predicate Sorted(s: seq<Point>)
  {
    forall i, j :: 0 <= i < j < |s| ==> Before(s[i], s[j])
  }

  /** The free cells of row `v0` with `0 <= v1 < k`, in order. */
  function FreeRow(v0: int, k: int, blocked: set<Point>): seq<Point>
    decreases k
  {
    if k <= 0 then []
    else FreeRow(v0, k - 1, blocked) + (if Point(v0, k - 1) in blocked then [] else [Point(v0, k - 1)])
  }

  /** The free cells of rows `0 <= v0 < k`, rows of width `n`, in order. */
  function FreeRows(n: int, k: int, blocked: set<Point>): seq<Point>
    decreases k
  {
    if k <= 0 then [] else FreeRows(n, k - 1, blocked) + FreeRow(k - 1, n, blocked)
  }

  /** Every free cell of the `n` square, in scan order. */
  function Free(n: int, blocked: set<Point>): seq<Point>
  {
    FreeRows(n, n, blocked)
  }

  lemma InAppend(a: seq<Point>, c: seq<Point>, p: Point)
    ensures p in a + c <==> p in a || p in c
  {
  }

  lemma FreeRowsStep(n: int, k: int, blocked: set<Point>, p: Point)
    requires k > 0
    ensures p in FreeRows(n, k, blocked) <==> p in FreeRows(n, k - 1, blocked) || p in FreeRow(k - 1, n, blocked)
  {
    InAppend(FreeRows(n, k - 1, blocked), FreeRow(k - 1, n, blocked), p);
  }

  lemma {:induction false} FreeRowMember(v0: int, k: int, blocked: set<Point>, p: Point)
    ensures p in FreeRow(v0, k, blocked) <==> p.x == v0 && 0 <= p.y < k && p !in blocked
    decreases k
  {
    if k > 0 {
      FreeRowMember(v0, k - 1, blocked, p);
      var a, c := FreeRow(v0, k - 1, blocked), if Point(v0, k - 1) in blocked then [] else [Point(v0, k - 1)];
      assert p in a + c <==> p in a || p in c;
    }
  }

  lemma FreeRowMembers(v0: int, k: int, blocked: set<Point>)
    ensures forall p :: p in FreeRow(v0, k, blocked) <==> p.x == v0 && 0 <= p.y < k && p !in blocked
  {
    forall p: Point
      ensures p in FreeRow(v0, k, blocked) <==> p.x == v0 && 0 <= p.y < k && p !in blocked
    {
      FreeRowMember(v0, k, blocked, p);
    }
  }

  lemma {:induction false} FreeRowsMember(n: int, k: int, blocked: set<Point>, p: Point)
    ensures p in FreeRows(n, k, blocked) <==> 0 <= p.x < k && 0 <= p.y < n && p !in blocked
    decreases k
  {
    if k > 0 {
      FreeRowsStep(n, k, blocked, p);
      FreeRowsMember(n, k - 1, blocked, p);
      FreeRowMember(k - 1, n, blocked, p);
      LastRowSplit(p in FreeRows(n, k, blocked), p in FreeRows(n, k - 1, blocked), p in FreeRow(k - 1, n, blocked),
        p.x, k, 0 <= p.y < n && p !in blocked);
    }
  }

  /** Rows `0 <= x < k` are rows `0 <= x < k - 1` and row `k - 1`. */
  lemma LastRowSplit(all: bool, earlier: bool, last: bool, x: int, k: int, rest: bool)
    requires k > 0
    requires all <==> earlier || last
    requires earlier <==> 0 <= x < k - 1 && rest
    requires last <==> x == k - 1 && rest
    ensures all <==> 0 <= x < k && rest
  {
  }

  lemma FreeRowsMembers(n: int, k: int, blocked: set<Point>)
    ensures forall p :: p in FreeRows(n, k, blocked) <==> 0 <= p.x < k && 0 <= p.y < n && p !in blocked
  {
    forall p: Point
      ensures p in FreeRows(n, k, blocked) <==> 0 <= p.x < k && 0 <= p.y < n && p !in blocked
    {
      FreeRowsMember(n, k, blocked, p);
    }
  }

  /** The free cells are exactly the cells of the square that are not
      blocked. */
  lemma FreeMembers(n: int, blocked: set<Point>, p: Point)
    ensures p in Free(n, blocked) <==> 0 <= p.x < n && 0 <= p.y < n && p !in blocked
  {
    FreeRowsMembers(n, n, blocked);
  }

  lemma SortedAppend(a: seq<Point>, b: seq<Point>)
    requires Sorted(a) && Sorted(b)
    requires forall i, j :: 0 <= i < |a| && 0 <= j < |b| ==> Before(a[i], b[j])
    ensures Sorted(a + b)
  {
    forall i, j | 0 <= i < j < |a + b|
      ensures Before((a + b)[i], (a + b)[j])
    {
      if j < |a| {
      } else if i >= |a| {
        assert (a + b)[i] == b[i - |a|] && (a + b)[j] == b[j - |a|];
      } else {
        assert (a + b)[j] == b[j - |a|];
      }
    }
  }

  lemma {:induction false} FreeRowSorted(v0: int, k: int, blocked: set<Point>)
    ensures Sorted(FreeRow(v0, k, blocked))
    decreases k
  {
    if k > 0 {
      FreeRowSorted(v0, k - 1, blocked);
      FreeRowMembers(v0, k - 1, blocked);
      var a := FreeRow(v0, k - 1, blocked);
      forall i | 0 <= i < |a|
        ensures Before(a[i], Point(v0, k - 1))
      {
        assert a[i] in a;
      }
      SortedAppend(a, if Point(v0, k - 1) in blocked then [] else [Point(v0, k - 1)]);
    }
  }

  lemma {:induction false} FreeRowsSorted(n: int, k: int, blocked: set<Point>)
    ensures Sorted(FreeRows(n, k, blocked))
    decreases k
  {
    if k > 0 {
      FreeRowsSorted(n, k - 1, blocked);
      FreeRowSorted(k - 1, n, blocked);
      var a, b := FreeRows(n, k - 1, blocked), FreeRow(k - 1, n, blocked);
      RowsBeforeRow(n, k, blocked, a, b);
      SortedAppend(a, b);
    }
  }

  /** Every cell of the earlier rows comes before every cell of row
      `k - 1`. */
  lemma RowsBeforeRow(n: int, k: int, blocked: set<Point>, a: seq<Point>, b: seq<Point>)
    requires k > 0 && a == FreeRows(n, k - 1, blocked) && b == FreeRow(k - 1, n, blocked)
    ensures forall i, j :: 0 <= i < |a| && 0 <= j < |b| ==> Before(a[i], b[j])
  {
    forall i, j | 0 <= i < |a| && 0 <= j < |b|
      ensures Before(a[i], b[j])
    {
      FreeRowsMember(n, k - 1, blocked, a[i]);
      FreeRowMember(k - 1, n, blocked, b[j]);
    }
  }

  /** The free cells come in strict scan order, so none twice. */
  lemma FreeSorted(n: int, blocked: set<Point>)
    ensures Sorted(Free(n, blocked))
  {
    FreeRowsSorted(n, n, blocked);
  }

  lemma {:induction false} FreeRowPrefix(v0: int, k: int, m: int, blocked: set<Point>)
    requires 0 <= k <= m
    ensures FreeRow(v0, k, blocked) <= FreeRow(v0, m, blocked)
    decreases m
  {
    if k < m {
      FreeRowPrefix(v0, k, m - 1, blocked);
    }
  }

  lemma {:induction false} FreeRowsPrefix(n: int, k: int, m: int, blocked: set<Point>)
    requires 0 <= k <= m
    ensures FreeRows(n, k, blocked) <= FreeRows(n, m, blocked)
    decreases m
  {
    if k < m {
      FreeRowsPrefix(n, k, m - 1, blocked);
    }
  }

  /** What a scan has taken when it stands at `(v0, v1)` is a prefix of
      all the free cells. */
  lemma ScanPrefix(n: int, v0: int, v1: int, blocked: set<Point>)
    requires 0 <= v0 < n && 0 <= v1 <= n
    ensures FreeRows(n, v0, blocked) + FreeRow(v0, v1, blocked) <= Free(n, blocked)
  {
    FreeRowPrefix(v0, v1, n, blocked);
    FreeRowsPrefix(n, v0 + 1, n, blocked);
  }

  /** What the scan has taken when it stands at `(v0, v1)`. */
  function Taken(n: int, v0: int, v1: int, blocked: set<Point>): seq<Point>
  {
    FreeRows(n, v0, blocked) + FreeRow(v0, v1, blocked)
  }

  /** `p` comes before `(v0, v1)` in the scan of the `n` square. */
  predicate InScan(p: Point, n: int, v0: int, v1: int)
  {
    0 <= p.y < n && (0 <= p.x < v0 || (p.x == v0 && p.y < v1))
  }

  /** The scan has taken exactly the free cells it has passed. */
  lemma TakenMembers(n: int, v0: int, v1: int, blocked: set<Point>, p: Point)
    requires 0 <= v1 <= n
    ensures p in Taken(n, v0, v1, blocked) <==> InScan(p, n, v0, v1) && p !in blocked
  {
    FreeRowsMembers(n, v0, blocked);
    FreeRowMembers(v0, v1, blocked);
  }

  /** `result` holds exactly the free cells the scan has passed at
      `(v0, v1)`. */
  ghost predicate Scanned(result: set<Point>, n: int, v0: int, v1: int, blocked: set<Point>)
  {
    forall p :: p in result <==> InScan(p, n, v0, v1) && p !in blocked
  }

  /** A free cell joins the taken ones. */
  lemma TakenAdd(result: set<Point>, n: int, v0: int, v1: int, next: int, blocked: set<Point>)
    requires next == v1 + 1 && Point(v0, v1) !in blocked && Scanned(result, n, v0, v1, blocked)
    requires 0 <= v1 < n
    ensures Scanned(result + {Point(v0, v1)}, n, v0, next, blocked)
  {
  }

  /** A blocked cell is passed over. */
  lemma TakenSkip(result: set<Point>, n: int, v0: int, v1: int, next: int, blocked: set<Point>)
    requires next == v1 + 1 && Point(v0, v1) in blocked && Scanned(result, n, v0, v1, blocked)
    ensures Scanned(result, n, v0, next, blocked)
  {
  }

  /** The taken cells, in scan order. */
  lemma TakenSorted(n: int, v0: int, v1: int, blocked: set<Point>)
    requires 0 <= v0 < n && 0 <= v1 <= n
    ensures Sorted(Taken(n, v0, v1, blocked))
  {
    ScanPrefix(n, v0, v1, blocked);
    FreeSorted(n, blocked);
    var t := Taken(n, v0, v1, blocked);
    forall i, j | 0 <= i < j < |t|
      ensures Before(t[i], t[j])
    {
      assert t[i] == Free(n, blocked)[i] && t[j] == Free(n, blocked)[j];
    }
  }

  /** Once the scan has taken `number` cells, they are the chosen ones. */
  lemma TakenChosen(n: int, v0: int, v1: int, blocked: set<Point>, number: int)
    requires 0 <= v0 < n && 0 <= v1 <= n && |Taken(n, v0, v1, blocked)| == number
    ensures number >= 1 ==> Chosen(Free(n, blocked), number) == Taken(n, v0, v1, blocked)
  {
    ScanPrefix(n, v0, v1, blocked);
  }

  /** Chosen cells are free cells of the square. */
  lemma ChosenInside(n: int, walls: set<Point>, located: set<Point>, number: int)
    ensures forall p :: p in Chosen(Free(n, walls + located), number) ==>
      p !in walls && p !in located && 0 <= p.x < n && 0 <= p.y < n
  {
    var c := Chosen(Free(n, walls + located), number);
    forall p | p in c
      ensures p !in walls + located && 0 <= p.x < n && 0 <= p.y < n
    {
      FreeMembers(n, walls + located, p);
    }
  }

  /** What one request hands out: exactly the chosen cells, none handed
      out before and none off the square or on a wall. */
  ghost predicate Handed(result: set<Point>, n: int, walls: set<Point>, located: set<Point>, number: int)
  {
    && (forall p :: p in result <==> p in Chosen(Free(n, walls + located), number))
    && result !! located && Inside(result, n, walls)
  }

  /** The cells of a strictly ordered sequence are as many as its length. */
  lemma {:induction false} SortedCard(s: seq<Point>, r: set<Point>)
    requires Sorted(s) && forall p :: p in r <==> p in s
    ensures |r| == |s|
    decreases |s|
  {
    if s != [] {
      var k := |s| - 1;
      var rest := r - {s[k]};
      forall p
        ensures p in rest <==> p in s[..k]
      {
        if p in s[..k] {
          var i :| 0 <= i < k && s[i] == p;
          assert Before(s[i], s[k]);
        }
        assert p in s <==> p in s[..k] || p == s[k] by {
          assert s == s[..k] + [s[k]];
        }
      }
      SortedCard(s[..k], rest);
      assert r == rest + {s[k]};
    }
  }

  /** So a request gets as many cells as were chosen for it. */
  lemma HandedSize(result: set<Point>, n: int, walls: set<Point>, located: set<Point>, number: int)
    requires Handed(result, n, walls, located, number)
    ensures |result| == |Chosen(Free(n, walls + located), number)|
  {
    FreeSorted(n, walls + located);
    SortedCard(Chosen(Free(n, walls + located), number), result);
  }

  /** A one-cell request gets at most one cell, and none only when no cell
      is free. */
  lemma HandedOne(result: set<Point>, n: int, walls: set<Point>, located: set<Point>)
    requires Handed(result, n, walls, located, 1)
    ensures |result| <= 1
    ensures result == {} ==> Free(n, walls + located) == []
  {
    HandedSize(result, n, walls, located, 1);
  }

  lemma ScannedFull(result: set<Point>, n: int, v0: int, v1: int, walls: set<Point>, located: set<Point>, number: int)
    requires 0 <= v0 < n && 0 <= v1 <= n && Scanned(result, n, v0, v1, walls + located) && |result| == number >= 1
    ensures Handed(result, n, walls, located, number)
  {
    var t := Taken(n, v0, v1, walls + located);
    forall p
      ensures p in result <==> p in t
    {
      TakenMembers(n, v0, v1, walls + located, p);
    }
    TakenSorted(n, v0, v1, walls + located);
    SortedCard(t, result);
    TakenChosen(n, v0, v1, walls + located, number);
    ChosenInside(n, walls, located, number);
  }

  lemma ScannedAll(result: set<Point>, n: int, v0: int, walls: set<Point>, located: set<Point>, number: int)
    requires v0 >= 0 && (v0 == n || (n < 0 && v0 == 0)) && Scanned(result, n, v0, 0, walls + located)
    requires number < 1 || |result| < number
    ensures Handed(result, n, walls, located, number)
  {
    var free := Free(n, walls + located);
    forall p
      ensures p in result <==> p in free
    {
      FreeMembers(n, walls + located, p);
    }
    FreeSorted(n, walls + located);
    SortedCard(free, result);
    ChosenInside(n, walls, located, number);
  }

  /** The cells a request for `number` cells gets: the first `number` free
      ones, or all of them when there are fewer, or when `number` is not
      positive, since the size test only runs after an insertion. */
  function Chosen(free: seq<Point>, number: int): seq<Point>
  {
    if 1 <= number <= |free| then free[..number] else free
  }

  // ----- the allocator -----

  datatype Busters = Busters(
    robot: Point,
    manipulators: set<Point>,
    fastWheels: set<Point>,
    drills: set<Point>,
    teleports: set<Point>,
    cloningBoosters: set<Point>,
    spawnPoints: set<Point>)

  /** The six booster categories of a placement, in generation order. */
  function Categories(b: Busters): (r: seq<set<Point>>)
    ensures |r| == 6
  {
    [b.manipulators, b.fastWheels, b.drills, b.teleports, b.cloningBoosters, b.spawnPoints]
  }

  function Union(cs: seq<set<Point>>): set<Point>
  {
    if cs == [] then {} else Union(cs[..|cs| - 1]) + cs[|cs| - 1]
  }

  predicate PairwiseDisjoint(cs: seq<set<Point>>)
  {
    forall i, j :: 0 <= i < j < |cs| ==> cs[i] !! cs[j]
  }

  /** The cells of `s` lie in the square of side `n` and off the walls. */
  predicate Inside(s: set<Point>, n: int, walls: set<Point>)
  {
    forall p :: p in s ==> p !in walls && 0 <= p.x < n && 0 <= p.y < n
  }

  /** Categories drawn one after another, each from the cells not handed
      out before it, `located[i]` being what was handed out before
      category `i`, are pairwise apart and off the walls. */
  lemma {:induction false} Drawn(cs: seq<set<Point>>, located: seq<set<Point>>, n: int, walls: set<Point>)
    requires |located| == |cs| + 1
    requires forall i :: 0 <= i < |cs| ==> located[i + 1] == located[i] + cs[i]
    requires forall i :: 0 <= i < |cs| ==> cs[i] !! located[i] && Inside(cs[i], n, walls)
    ensures PairwiseDisjoint(cs) && Inside(Union(cs), n, walls)
    ensures located[|cs|] == located[0] + Union(cs)
    decreases |cs|
  {
    if cs != [] {
      var k := |cs| - 1;
      Drawn(cs[..k], located[..k + 1], n, walls);
      forall i, j | 0 <= i < j < |cs|
        ensures cs[i] !! cs[j]
      {
        if j == k {
          assert cs[i] <= located[k] by {
            UnionHolds(cs[..k], i);
          }
        }
      }
    }
  }

  /** `Drawn` for the six categories `generate()` draws in turn. */
  lemma DrawnSix(b: Busters, b0: set<Point>, b1: set<Point>, b2: set<Point>, b3: set<Point>, b4: set<Point>,
                 b5: set<Point>, b6: set<Point>, n: int, walls: set<Point>)
    requires b.manipulators !! b0 && Inside(b.manipulators, n, walls) && b1 == b0 + b.manipulators
    requires b.fastWheels !! b1 && Inside(b.fastWheels, n, walls) && b2 == b1 + b.fastWheels
    requires b.drills !! b2 && Inside(b.drills, n, walls) && b3 == b2 + b.drills
    requires b.teleports !! b3 && Inside(b.teleports, n, walls) && b4 == b3 + b.teleports
    requires b.cloningBoosters !! b4 && Inside(b.cloningBoosters, n, walls) && b5 == b4 + b.cloningBoosters
    requires b.spawnPoints !! b5 && Inside(b.spawnPoints, n, walls) && b6 == b5 + b.spawnPoints
    ensures PairwiseDisjoint(Categories(b)) && Inside(Union(Categories(b)), n, walls)
    ensures b6 == b0 + Union(Categories(b))
  {
    var cs, located := Categories(b), [b0, b1, b2, b3, b4, b5, b6];
    forall i | 0 <= i < |cs|
      ensures located[i + 1] == located[i] + cs[i]
      ensures cs[i] !! located[i] && Inside(cs[i], n, walls)
    {
    }
    Drawn(cs, located, n, walls);
  }

  lemma {:induction false} UnionHolds(cs: seq<set<Point>>, i: int)
    requires 0 <= i < |cs|
    ensures cs[i] <= Union(cs)
    decreases |cs|
  {
    if i < |cs| - 1 {
      UnionHolds(cs[..|cs| - 1], i);
    }
  }

  lemma Single(s: set<Point>, x: Point)
    requires |s| <= 1 && x in s
    ensures s == {x}
  {
    var t := s - {x};
    assert s == t + {x} && x !in t;
    assert |t| == 0;
  }

  class BusterGenerator {
    const walls: set<Point>
    const parameters: GenParameters.Parameters
    /** Every cell handed out so far. */
    var bustersLocations: set<Point>

    constructor(walls: set<Point>, parameters: GenParameters.Parameters)
      ensures this.walls == walls && this.parameters == parameters
      ensures bustersLocations == {}
    {
      this.walls := walls;
      this.parameters := parameters;
      bustersLocations := {};
    }

    /** `generatePoints(number)`: scans the square row by row, `v0`
        outer and `v1` inner, handing out every cell that is neither a
        wall nor handed out already, and stops as soon as it has handed
        out `number` cells. */
    method GeneratePoints(number: int) returns (result: set<Point>)
      modifies this
      ensures Handed(result, parameters.mapSize, walls, old(bustersLocations), number)
      ensures bustersLocations == old(bustersLocations) + result
    {
      var n := parameters.mapSize;
      result := {};
      var v0 := 0;
      while v0 < n
        invariant 0 <= v0 && (v0 <= n || v0 == 0)
        invariant Scanned(result, n, v0, 0, walls + old(bustersLocations))
        invariant number < 1 || |result| < number
        invariant bustersLocations == old(bustersLocations) + result
      {
        var full;
        result, full := ScanRow(number, v0, old(bustersLocations), result);
        if full {
          return;
        }
        v0 := v0 + 1;
      }
      ScannedAll(result, n, v0, walls, old(bustersLocations), number);
    }

    /** The inner loop of `generatePoints`, over row `v0`; `full` says the
        request was met and the scan returns. */
    method ScanRow(number: int, v0: int, ghost located: set<Point>, start: set<Point>) returns (result: set<Point>, full: bool)
      requires 0 <= v0 < parameters.mapSize
      requires Scanned(start, parameters.mapSize, v0, 0, walls + located)
      requires number < 1 || |start| < number
      requires bustersLocations == located + start
      modifies this
      ensures bustersLocations == located + result
      ensures full ==> Handed(result, parameters.mapSize, walls, located, number)
      ensures !full ==> Scanned(result, parameters.mapSize, v0 + 1, 0, walls + located)
      ensures !full ==> number < 1 || |result| < number
    {
      var n := parameters.mapSize;
      ghost var blocked := walls + located;
      result := start;
      var v1 := 0;
      while v1 < n
        invariant 0 <= v1 <= n
        invariant Scanned(result, n, v0, v1, blocked) && (number < 1 || |result| < number)
        invariant bustersLocations == located + result
      {
        var point := Point(v0, v1);
        var next := v1 + 1;
        if point !in walls && point !in bustersLocations {
          TakenAdd(result, n, v0, v1, next, blocked);
          bustersLocations := bustersLocations + {point};
          result := result + {point};
          if |result| == number {
            ScannedFull(result, n, v0, next, walls, located, number);
            return result, true;
          }
        } else {
          TakenSkip(result, n, v0, v1, next, blocked);
        }
        v1 := next;
      }
      full := false;
    }

    /** `generate()`: the six categories in argument order, then the
        robot's cell, which fails when no cell is left. */
    method Generate() returns (r: Option<Busters>)
      modifies this
      ensures r.Some? ==> PairwiseDisjoint(Categories(r.value))
      ensures r.Some? ==> r.value.robot !in Union(Categories(r.value))
      ensures r.Some? ==> bustersLocations == old(bustersLocations) + Union(Categories(r.value)) + {r.value.robot}
      ensures r.Some? ==> Inside(bustersLocations - old(bustersLocations), parameters.mapSize, walls)
      ensures r.None? ==> Free(parameters.mapSize, walls + bustersLocations) == []
      ensures r.Some? ==> var b, n, l := r.value, parameters.mapSize, old(bustersLocations);
        && Handed(b.manipulators, n, walls, l, parameters.manipulatorsNumber)
        && Handed(b.fastWheels, n, walls, l + b.manipulators, parameters.fastWheelsNumber)
        && Handed(b.drills, n, walls, l + b.manipulators + b.fastWheels, parameters.drillsNumber)
        && Handed(b.teleports, n, walls, l + b.manipulators + b.fastWheels + b.drills, parameters.teleportsNumber)
        && Handed(b.cloningBoosters, n, walls, l + b.manipulators + b.fastWheels + b.drills + b.teleports,
                  parameters.cloningBoostersNumber)
        && Handed(b.spawnPoints, n, walls, l + b.manipulators + b.fastWheels + b.drills + b.teleports + b.cloningBoosters,
                  parameters.spawnPointsNumber)
        && Handed({b.robot}, n, walls, l + Union(Categories(b)), 1)
    {
      ghost var b0 := bustersLocations;
      var manipulators := GeneratePoints(parameters.manipulatorsNumber);
      ghost var b1 := bustersLocations;
      var fastWheels := GeneratePoints(parameters.fastWheelsNumber);
      ghost var b2 := bustersLocations;
      var drills := GeneratePoints(parameters.drillsNumber);
      ghost var b3 := bustersLocations;
      var teleports := GeneratePoints(parameters.teleportsNumber);
      ghost var b4 := bustersLocations;
      var cloningBoosters := GeneratePoints(parameters.cloningBoostersNumber);
      ghost var b5 := bustersLocations;
      var spawnPoints := GeneratePoints(parameters.spawnPointsNumber);
      ghost var b6 := bustersLocations;
      var robots := GeneratePoints(1);
      HandedOne(robots, parameters.mapSize, walls, b6);
      if robots == {} {
        assert bustersLocations == b6;
        return None;
      }
      var robot :| robot in robots;
      Single(robots, robot);
      r := Some(Busters(robot, manipulators, fastWheels, drills, teleports, cloningBoosters, spawnPoints));
      DrawnSix(r.value, b0, b1, b2, b3, b4, b5, b6, parameters.mapSize, walls);
    }
  }
}
