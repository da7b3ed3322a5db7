/** The region partitioner of player/SuperSmarterAStarBot.kt (the same code
    appears again in player/SmartAsFuckBot.kt): the map is cut into 20 by 20
    areas, each area is split into 4-connected blobs of non-wall cells by
    flood fill, undersized blobs are merged into a neighbour, the blob
    adjacency graph is built, and the visiting order of the blobs is read off
    a tour of that graph. */
module Blobs {
  import opened Wrappers
  import opened Maps
  import opened Utils

  /** `BLOB_SIZE`: the side of an area. */
  const BlobSize: int := 20

  datatype Blob = Blob(initial: Point, points: set<Point>)

  datatype Area = Area(corner: Point)

  /** `Area.contains`: the half-open square of side `BlobSize` whose lower
      left corner is `corner`. */
  predicate InArea(a: Area, p: Point)
  {
    a.corner.x <= p.x && a.corner.y <= p.y && a.corner.x + BlobSize > p.x && a.corner.y + BlobSize > p.y
  }

  /** A cell a blob of area `a` may hold: inside the area and not a wall. */
  predicate Open(m: GameMap, a: Area, p: Point)
  {
    InArea(a, p) && !IsWall(Get(m, p).status)
  }

  /** The cells of an area, as a finite set. */
  function AreaCells(a: Area): (r: set<Point>)
    ensures forall p :: p in r <==> InArea(a, p)
  {
    var r := set x: int, y: int | a.corner.x <= x < a.corner.x + BlobSize && a.corner.y <= y < a.corner.y + BlobSize :: Point(x, y);
    assert forall p :: InArea(a, p) ==> Point(p.x, p.y) in r;
    r
  }

  // ----- adjacency of blobs -----

  /** `Blob.isNeighbor`: some point of `b` has its up, down, left or right
      neighbour in `o`. */
  predicate IsNeighbor(b: Blob, o: Blob)
  {
    exists p :: p in b.points && (Up(p) in o.points || Down(p) in o.points || Left(p) in o.points || Right(p) in o.points)
  }

  /** The blobs touch: a point of one is 4-adjacent to a point of the other. */
  ghost predicate Touching(b: Blob, o: Blob)
  {
    exists p, q :: p in b.points && q in o.points && Adjacent(p, q)
  }

  /** `isNeighbor` is exactly "touching", which is symmetric. */
  lemma IsNeighborIff(b: Blob, o: Blob)
    ensures IsNeighbor(b, o) <==> Touching(b, o)
    ensures IsNeighbor(b, o) <==> IsNeighbor(o, b)
  {
    if IsNeighbor(b, o) {
      var p :| p in b.points && (Up(p) in o.points || Down(p) in o.points || Left(p) in o.points || Right(p) in o.points);
      var q := if Up(p) in o.points then Up(p) else if Down(p) in o.points then Down(p) else if Left(p) in o.points then Left(p) else Right(p);
      assert Adjacent(p, q);
      assert q in o.points && (Up(q) == p || Down(q) == p || Left(q) == p || Right(q) == p);
    }
    if IsNeighbor(o, b) {
      var q :| q in o.points && (Up(q) in b.points || Down(q) in b.points || Left(q) in b.points || Right(q) in b.points);
      var p := if Up(q) in b.points then Up(q) else if Down(q) in b.points then Down(q) else if Left(q) in b.points then Left(q) else Right(q);
      assert Adjacent(p, q);
      assert p in b.points && (Up(p) == q || Down(p) == q || Left(p) == q || Right(p) == q);
    }
    if Touching(b, o) {
      var p, q :| p in b.points && q in o.points && Adjacent(p, q);
      assert Up(p) in o.points || Down(p) in o.points || Left(p) in o.points || Right(p) in o.points;
    }
  }

  // ----- connectivity inside an area -----

  /** A walk through open cells of the area, each step to a 4-neighbour. */
  ghost predicate IsPath(m: GameMap, a: Area, ps: seq<Point>)
  {
    && |ps| >= 1
    && (forall i :: 0 <= i < |ps| ==> Open(m, a, ps[i]))
    && (forall i :: 0 <= i < |ps| - 1 ==> Adjacent(ps[i], ps[i + 1]))
  }

  /** `t` can be reached from `s` inside the area without crossing a wall. */
  ghost predicate Connected(m: GameMap, a: Area, s: Point, t: Point)
  {
    exists ps :: IsPath(m, a, ps) && ps[0] == s && ps[|ps| - 1] == t
  }

  /** No step leads from `s` to an open cell of the area outside `s`. */
  ghost predicate Closed(m: GameMap, a: Area, s: set<Point>)
  {
    forall p, q {:trigger Adjacent(p, q), p in s} :: p in s && Adjacent(p, q) && Open(m, a, q) ==> q in s
  }

  /** A connected component of the open cells of the area, grown from
      `initial`: what `floodFill` returns for an open starting cell. */
  ghost predicate Component(m: GameMap, a: Area, b: Blob)
  {
    && b.initial in b.points
    && (forall p :: p in b.points ==> Open(m, a, p))
    && Closed(m, a, b.points)
    && (forall p :: p in b.points ==> Connected(m, a, b.initial, p))
  }

  function Reversed(ps: seq<Point>): (r: seq<Point>)
    ensures |r| == |ps|
    ensures forall i :: 0 <= i < |ps| ==> r[i] == ps[|ps| - 1 - i]
  {
    if ps == [] then [] else Reversed(ps[1..]) + [ps[0]]
  }

  lemma ConnectedSymmetric(m: GameMap, a: Area, s: Point, t: Point)
    requires Connected(m, a, s, t)
    ensures Connected(m, a, t, s)
  {
    var ps :| IsPath(m, a, ps) && ps[0] == s && ps[|ps| - 1] == t;
    var rs := Reversed(ps);
    forall i | 0 <= i < |rs| - 1
      ensures Adjacent(rs[i], rs[i + 1])
    {
      NeighboursAreAdjacent(rs[i + 1], rs[i]);
    }
    assert IsPath(m, a, rs);
  }

  lemma ConnectedStep(m: GameMap, a: Area, s: Point, p: Point, q: Point)
    requires Connected(m, a, s, p) && Adjacent(p, q) && Open(m, a, q)
    ensures Connected(m, a, s, q)
  {
    var ps :| IsPath(m, a, ps) && ps[0] == s && ps[|ps| - 1] == p;
    var qs := ps + [q];
    assert IsPath(m, a, qs);
  }

  lemma ConnectedSelf(m: GameMap, a: Area, s: Point)
    requires Open(m, a, s)
    ensures Connected(m, a, s, s)
  {
    assert IsPath(m, a, [s]);
  }

  /** A closed set holding the start of a walk holds the whole walk. */
  lemma {:induction false} ClosedHoldsPath(m: GameMap, a: Area, s: set<Point>, ps: seq<Point>)
    requires Closed(m, a, s) && IsPath(m, a, ps) && ps[0] in s
    ensures ps[|ps| - 1] in s
  {
    if |ps| > 1 {
      assert Adjacent(ps[0], ps[1]) && Open(m, a, ps[1]);
      assert IsPath(m, a, ps[1..]);
      ClosedHoldsPath(m, a, s, ps[1..]);
    }
  }

  /** Two components that share a point are the same component: a component
      that misses the start of another misses all of it. */
  lemma ComponentsDisjoint(m: GameMap, a: Area, b: Blob, f: Blob)
    requires Component(m, a, b) && Component(m, a, f) && f.initial !in b.points
    ensures b.points !! f.points
  {
    forall q | q in b.points && q in f.points
      ensures false
    {
      ConnectedSymmetric(m, a, f.initial, q);
      var ps :| IsPath(m, a, ps) && ps[0] == q && ps[|ps| - 1] == f.initial;
      ClosedHoldsPath(m, a, b.points, ps);
    }
  }

  // ----- flood fill -----

  /** The state of the flood fill's worklist: every collected cell is open
      and reachable from `start`; every open neighbour of a collected cell is
      collected or still queued; `start` is handled once the first cell has
      been taken; every queued cell is `start` or a neighbour of a collected
      one. */
  ghost predicate FillState(m: GameMap, a: Area, start: Point, result: set<Point>, queue: seq<Point>)
  {
    && (forall p :: p in result ==> Open(m, a, p) && Connected(m, a, start, p))
    && (forall p, q {:trigger Adjacent(p, q), p in result} ::
          p in result && Adjacent(p, q) && Open(m, a, q) ==> q in result || q in queue)
    && ((result == {} && queue == [start]) || start in result || !Open(m, a, start))
    && (forall i :: 0 <= i < |queue| ==> queue[i] == start || exists p :: p in result && Adjacent(p, queue[i]))
  }

  /** Skipping a taken cell that is already collected or not open. */
  lemma SkipKeepsState(m: GameMap, a: Area, start: Point, result: set<Point>, old_queue: seq<Point>)
    requires FillState(m, a, start, result, old_queue) && old_queue != []
    requires old_queue[0] in result || !Open(m, a, old_queue[0])
    ensures FillState(m, a, start, result, old_queue[1..])
  {
    var current, queue := old_queue[0], old_queue[1..];
    if result == {} && old_queue == [start] {
      assert current == start;
    }
    forall i | 0 <= i < |queue|
      ensures queue[i] == start || exists p :: p in result && Adjacent(p, queue[i])
    {
      assert queue[i] == old_queue[i + 1];
    }
  }

  /** Collecting a taken open cell and queueing its four neighbours. */
  lemma AddKeepsState(m: GameMap, a: Area, start: Point, result: set<Point>, old_queue: seq<Point>)
    requires FillState(m, a, start, result, old_queue) && old_queue != []
    requires old_queue[0] !in result && Open(m, a, old_queue[0])
    ensures FillState(m, a, start, result + {old_queue[0]}, old_queue[1..] + Neighbours(old_queue[0]))
  {
    var current, queue := old_queue[0], old_queue[1..];
    if current != start {
      var p :| p in result && Adjacent(p, current);
      ConnectedStep(m, a, start, p, current);
    } else {
      ConnectedSelf(m, a, start);
    }
    var r' := result + {current};
    var q' := queue + Neighbours(current);
    forall i | 0 <= i < |q'|
      ensures q'[i] == start || exists p :: p in r' && Adjacent(p, q'[i])
    {
      if i < |queue| {
        assert q'[i] == old_queue[i + 1];
      } else {
        NeighboursAreAdjacent(current, q'[i]);
      }
    }
    forall p, q | p in r' && Adjacent(p, q) && Open(m, a, q)
      ensures q in r' || q in q'
    {
      if p == current {
        NeighboursAreAdjacent(current, q);
      } else if q !in r' {
        assert q in old_queue;
      }
    }
  }

  lemma AreaShrinks(a: Area, result: set<Point>, current: Point)
    requires InArea(a, current) && current !in result
    ensures |AreaCells(a) - (result + {current})| < |AreaCells(a) - result|
  {
    assert AreaCells(a) - (result + {current}) == (AreaCells(a) - result) - {current};
  }

  /** `floodFill`: a first-in first-out worklist from `start`; a taken cell
      is skipped when already collected, outside the area or a wall, and is
      otherwise collected and its four neighbours queued. The result is the
      component of `start`, or empty when `start` itself is not open. */
  method FloodFill(start: Point, a: Area, m: GameMap) returns (b: Blob)
    ensures b.initial == start
    ensures start in b.points <==> Open(m, a, start)
    ensures forall p :: p in b.points ==> Open(m, a, p)
    ensures Closed(m, a, b.points)
    ensures forall p :: p in b.points ==> Connected(m, a, start, p)
  {
    var result: set<Point> := {};
    var queue: seq<Point> := [start];
    while queue != []
      invariant FillState(m, a, start, result, queue)
      decreases |AreaCells(a) - result|, |queue|
    {
      var current := queue[0];
      if current in result || !InArea(a, current) || IsWall(Get(m, current).status) {
        SkipKeepsState(m, a, start, result, queue);
        queue := queue[1..];
      } else {
        AddKeepsState(m, a, start, result, queue);
        queue := queue[1..];
        AreaShrinks(a, result, current);
        result := result + {current};
        queue := queue + [Up(current), Down(current), Left(current), Right(current)];
      }
    }
    b := Blob(start, result);
  }

  // ----- blobs of one area -----

  /** Some blob of `blobs` holds `p`: `blobs.any { p in it }`. */
  predicate Covered(blobs: seq<Blob>, p: Point)
  {
    exists i :: 0 <= i < |blobs| && p in blobs[i].points
  }

  /** No point lies in two blobs of the list. */
  ghost predicate Disjoint(blobs: seq<Blob>)
  {
    forall i, j :: 0 <= i < |blobs| && 0 <= j < |blobs| && i != j ==> blobs[i].points !! blobs[j].points
  }

  /** Cells of the area visited by the scan before `(x, y)`: columns left of
      `x`, and the cells of column `x` below `y`. */
  predicate ScannedBefore(p: Point, x: int, y: int)
  {
    p.x < x || (p.x == x && p.y < y)
  }

  /** The state of the area scan: disjoint components, covering every open
      cell already visited. */
  ghost predicate ScanState(m: GameMap, a: Area, blobs: seq<Blob>, x: int, y: int)
  {
    && (forall i :: 0 <= i < |blobs| ==> Component(m, a, blobs[i]))
    && Disjoint(blobs)
    && (forall p :: Open(m, a, p) && ScannedBefore(p, x, y) ==> Covered(blobs, p))
  }

  /** Adding the flood fill of an open, uncovered cell keeps the scan state. */
  lemma ScanAddKeeps(m: GameMap, a: Area, blobs: seq<Blob>, x: int, y: int, f: Blob)
    requires ScanState(m, a, blobs, x, y)
    requires Component(m, a, f) && !Covered(blobs, f.initial)
    ensures ScanState(m, a, blobs + [f], x, y)
  {
    var bs := blobs + [f];
    forall i | 0 <= i < |blobs|
      ensures blobs[i].points !! f.points
    {
      ComponentsDisjoint(m, a, blobs[i], f);
    }
    forall p | Open(m, a, p) && ScannedBefore(p, x, y)
      ensures Covered(bs, p)
    {
      var i :| 0 <= i < |blobs| && p in blobs[i].points;
      assert bs[i] == blobs[i];
    }
    assert forall i :: 0 <= i < |blobs| ==> bs[i] == blobs[i];
  }

  /** Moving on to the next cell of a column, the current one covered. */
  lemma ScanAdvance(m: GameMap, a: Area, blobs: seq<Blob>, x: int, y: int)
    requires ScanState(m, a, blobs, x, y)
    requires Open(m, a, Point(x, y)) ==> Covered(blobs, Point(x, y))
    ensures ScanState(m, a, blobs, x, y + 1)
  {
  }

  /** Moving on to the next column, the current one finished. */
  lemma ScanNextColumn(m: GameMap, a: Area, blobs: seq<Blob>, x: int)
    requires ScanState(m, a, blobs, x, a.corner.y + BlobSize)
    ensures ScanState(m, a, blobs, x + 1, a.corner.y)
  {
  }

  /** `findBlobs(area, map)`: scan the cells of the area, column by column
      and upwards within a column; a wall or an already covered cell is
      skipped, any other cell starts a new blob by flood fill. The result
      partitions the open cells of the area into connected components. */
  method FindBlobsInArea(a: Area, m: GameMap) returns (blobs: seq<Blob>)
    ensures forall i :: 0 <= i < |blobs| ==> Component(m, a, blobs[i])
    ensures Disjoint(blobs)
    ensures forall p :: Covered(blobs, p) <==> Open(m, a, p)
  {
    blobs := [];
    var x := a.corner.x;
    while x < a.corner.x + BlobSize
      invariant a.corner.x <= x <= a.corner.x + BlobSize
      invariant ScanState(m, a, blobs, x, a.corner.y)
    {
      var y := a.corner.y;
      while y < a.corner.y + BlobSize
        invariant a.corner.y <= y <= a.corner.y + BlobSize
        invariant ScanState(m, a, blobs, x, y)
      {
        var point := Point(x, y);
        if !IsWall(Get(m, point).status) && !Covered(blobs, point) {
          var f := FloodFill(point, a, m);
          ScanAddKeeps(m, a, blobs, x, y, f);
          blobs := blobs + [f];
          assert point in blobs[|blobs| - 1].points;
        }
        ScanAdvance(m, a, blobs, x, y);
        y := y + 1;
      }
      ScanNextColumn(m, a, blobs, x);
      x := x + 1;
    }
  }

  // ----- blobs of the whole map -----

  /** The cell lies in the bounding box of the map. */
  predicate InBox(m: GameMap, p: Point)
  {
    m.minX <= p.x <= m.maxX && m.minY <= p.y <= m.maxY
  }

  /** The area of the tiling from `(minX, minY)` that holds `p`. */
  function TileOf(m: GameMap, p: Point): Area
  {
    Area(Point(m.minX + BlobSize * ((p.x - m.minX) / BlobSize), m.minY + BlobSize * ((p.y - m.minY) / BlobSize)))
  }

  /** A corner of the tiling. */
  predicate TileCorner(m: GameMap, c: Point)
  {
    m.minX <= c.x && m.minY <= c.y && (c.x - m.minX) % BlobSize == 0 && (c.y - m.minY) % BlobSize == 0
  }

  lemma TileOfCell(m: GameMap, a: Area, p: Point)
    requires TileCorner(m, a.corner) && InArea(a, p)
    ensures TileOf(m, p) == a
  {
    var kx := (a.corner.x - m.minX) / BlobSize;
    var ky := (a.corner.y - m.minY) / BlobSize;
    assert a.corner.x - m.minX == BlobSize * kx;
    assert a.corner.y - m.minY == BlobSize * ky;
    assert p.x - m.minX == BlobSize * kx + (p.x - a.corner.x);
    assert p.y - m.minY == BlobSize * ky + (p.y - a.corner.y);
  }

  /** Cells of the areas already scanned, rows of areas below `y` and, in
      the row of areas at `y`, the areas left of `x`. */
  predicate TiledBefore(m: GameMap, p: Point, x: int, y: int)
  {
    m.minX <= p.x && m.minY <= p.y && (p.y < y || (p.y < y + BlobSize && p.x < x))
  }

  /** Every blob is a connected component of the open cells of its tile. */
  ghost predicate TileComponents(m: GameMap, blobs: seq<Blob>)
  {
    forall i :: 0 <= i < |blobs| ==> Component(m, TileOf(m, blobs[i].initial), blobs[i])
  }

  /** Every point of every blob lies in an area already scanned. */
  ghost predicate PlacedBefore(m: GameMap, blobs: seq<Blob>, x: int, y: int)
  {
    forall i, p {:trigger p in blobs[i].points} :: 0 <= i < |blobs| && p in blobs[i].points ==> TiledBefore(m, p, x, y)
  }

  /** Every non-wall cell of the box in an area already scanned is covered. */
  ghost predicate CoveredBefore(m: GameMap, blobs: seq<Blob>, x: int, y: int)
  {
    forall p {:trigger TiledBefore(m, p, x, y)} :: InBox(m, p) && !IsWall(Get(m, p).status) && TiledBefore(m, p, x, y) ==> Covered(blobs, p)
  }

  /** The state of the map scan. */
  ghost predicate TileState(m: GameMap, blobs: seq<Blob>, x: int, y: int)
  {
    TileComponents(m, blobs) && Disjoint(blobs) && PlacedBefore(m, blobs, x, y) && CoveredBefore(m, blobs, x, y)
  }

  lemma TileComponentsAppend(m: GameMap, blobs: seq<Blob>, x: int, y: int, ab: seq<Blob>)
    requires TileComponents(m, blobs) && TileCorner(m, Point(x, y))
    requires forall i :: 0 <= i < |ab| ==> Component(m, Area(Point(x, y)), ab[i])
    ensures TileComponents(m, blobs + ab)
  {
    var bs := blobs + ab;
    forall i | 0 <= i < |bs|
      ensures Component(m, TileOf(m, bs[i].initial), bs[i])
    {
      if i < |blobs| {
        assert bs[i] == blobs[i];
      } else {
        var j := i - |blobs|;
        assert bs[i] == ab[j];
        TileOfCell(m, Area(Point(x, y)), ab[j].initial);
      }
    }
  }

  lemma DisjointAppend(s: seq<Blob>, t: seq<Blob>)
    requires Disjoint(s) && Disjoint(t)
    requires forall i, j :: 0 <= i < |s| && 0 <= j < |t| ==> s[i].points !! t[j].points
    ensures Disjoint(s + t)
  {
    var st := s + t;
    forall i, j | 0 <= i < |st| && 0 <= j < |st| && i != j
      ensures st[i].points !! st[j].points
    {
      if i < |s| && j >= |s| {
        assert st[j] == t[j - |s|];
      } else if i >= |s| && j < |s| {
        assert st[i] == t[i - |s|];
      } else if i >= |s| {
        assert st[i] == t[i - |s|] && st[j] == t[j - |s|];
      }
    }
  }

  lemma TileAddKeeps(m: GameMap, blobs: seq<Blob>, x: int, y: int, ab: seq<Blob>)
    requires TileState(m, blobs, x, y) && TileCorner(m, Point(x, y))
    requires forall i :: 0 <= i < |ab| ==> Component(m, Area(Point(x, y)), ab[i])
    requires Disjoint(ab)
    requires forall p :: Covered(ab, p) <==> Open(m, Area(Point(x, y)), p)
    ensures TileState(m, blobs + ab, x + BlobSize, y)
  {
    var a := Area(Point(x, y));
    var bs := blobs + ab;
    TileComponentsAppend(m, blobs, x, y, ab);
    forall i, j | 0 <= i < |blobs| && 0 <= j < |ab|
      ensures blobs[i].points !! ab[j].points
    {
      forall p | p in ab[j].points
        ensures p !in blobs[i].points
      {
        assert InArea(a, p);
      }
    }
    DisjointAppend(blobs, ab);
    forall i, p | 0 <= i < |bs| && p in bs[i].points
      ensures TiledBefore(m, p, x + BlobSize, y)
    {
      if i >= |blobs| {
        assert bs[i] == ab[i - |blobs|];
        assert InArea(a, p);
      } else {
        assert bs[i] == blobs[i];
      }
    }
    TileCoverAppend(m, blobs, x, y, ab);
  }

  lemma TileCoverAppend(m: GameMap, blobs: seq<Blob>, x: int, y: int, ab: seq<Blob>)
    requires CoveredBefore(m, blobs, x, y)
    requires forall p :: Covered(ab, p) <==> Open(m, Area(Point(x, y)), p)
    ensures CoveredBefore(m, blobs + ab, x + BlobSize, y)
  {
    var bs := blobs + ab;
    forall p | InBox(m, p) && !IsWall(Get(m, p).status) && TiledBefore(m, p, x + BlobSize, y)
      ensures Covered(bs, p)
    {
      if TiledBefore(m, p, x, y) {
        var i :| 0 <= i < |blobs| && p in blobs[i].points;
        assert p in bs[i].points;
      } else {
        assert Open(m, Area(Point(x, y)), p);
        var i :| 0 <= i < |ab| && p in ab[i].points;
        assert p in bs[|blobs| + i].points;
      }
    }
  }

  lemma TileNextRow(m: GameMap, blobs: seq<Blob>, x: int, y: int)
    requires TileState(m, blobs, x, y) && x > m.maxX
    ensures TileState(m, blobs, m.minX, y + BlobSize)
  {
    forall p | InBox(m, p) && !IsWall(Get(m, p).status) && TiledBefore(m, p, m.minX, y + BlobSize)
      ensures Covered(blobs, p)
    {
      assert TiledBefore(m, p, x, y);
    }
    forall i, p | 0 <= i < |blobs| && p in blobs[i].points
      ensures TiledBefore(m, p, m.minX, y + BlobSize)
    {
      assert TiledBefore(m, p, x, y);
    }
  }

  /** `findBlobs(map)`: the areas of the tiling from `(minX, minY)` in steps
      of `BlobSize`, rows of areas from `minY` up to `maxY` and, within a
      row, from `minX` up to `maxX`; the blobs of each area appended in turn.
      Every non-wall cell of the bounding box lies in exactly one blob, and
      each blob is a connected component of the open cells of its tile. */
  method FindBlobs(m: GameMap) returns (blobs: seq<Blob>)
    ensures TileComponents(m, blobs)
    ensures Disjoint(blobs)
    ensures forall p :: InBox(m, p) && !IsWall(Get(m, p).status) ==> Covered(blobs, p)
    ensures forall i, p :: 0 <= i < |blobs| && p in blobs[i].points ==> m.minX <= p.x && m.minY <= p.y
  {
    blobs := [];
    var y := m.minY;
    while y <= m.maxY
      invariant TileCorner(m, Point(m.minX, y))
      invariant TileState(m, blobs, m.minX, y)
      decreases m.maxY - y
    {
      var x := m.minX;
      while x <= m.maxX
        invariant TileCorner(m, Point(x, y))
        invariant TileState(m, blobs, x, y)
        decreases m.maxX - x
      {
        var ab := FindBlobsInArea(Area(Point(x, y)), m);
        TileAddKeeps(m, blobs, x, y, ab);
        blobs := blobs + ab;
        x := x + BlobSize;
      }
      TileNextRow(m, blobs, x, y);
      y := y + BlobSize;
    }
    forall p | InBox(m, p) && !IsWall(Get(m, p).status)
      ensures Covered(blobs, p)
    {
      assert TiledBefore(m, p, m.minX, y);
    }
  }

  // ----- merging undersized blobs -----

  /** `Iterable.find`: the index of the first element satisfying `f`. */
  function FindFirst<T>(s: seq<T>, f: T -> bool): (r: Option<nat>)
    ensures r.None? <==> forall i :: 0 <= i < |s| ==> !f(s[i])
    ensures r.Some? ==> r.value < |s| && f(s[r.value]) && forall i :: 0 <= i < r.value ==> !f(s[i])
  {
    if s == [] then None
    else if f(s[0]) then Some(0)
    else match FindFirst(s[1..], f)
      case None => None
      case Some(k) => Some(k + 1)
  }

  /** The merge threshold: a fifth of a full area, `0.2 * BLOB_SIZE^2`. */
  const MergeLimit: int := BlobSize * BlobSize / 5

  /** A blob too small to stand alone: fewer than `MergeLimit` cells. */
  predicate Small(b: Blob)
  {
    |b.points| < MergeLimit
  }

  /** The first index holding `x`. */
  function IndexOf<T(==)>(s: seq<T>, x: T): (k: nat)
    requires x in s
    ensures k < |s| && s[k] == x && forall i :: 0 <= i < k ==> s[i] != x
  {
    if s[0] == x then 0 else 1 + IndexOf(s[1..], x)
  }

  function RemoveAt<T>(s: seq<T>, k: nat): (r: seq<T>)
    requires k < |s|
    ensures |r| == |s| - 1
    ensures forall i :: 0 <= i < |r| ==> r[i] == if i < k then s[i] else s[i + 1]
  {
    s[..k] + s[k + 1..]
  }

  /** `MutableList.remove(element)`: drops the first occurrence, so one
      copy of the element goes, the others stay, and the rest keep their
      order around the gap. */
  function RemoveFirst<T(==)>(s: seq<T>, x: T): (r: seq<T>)
    requires x in s
    ensures |r| == |s| - 1
    ensures multiset(r) == multiset(s) - multiset{x}
    ensures exists k :: 0 <= k < |s| && s[k] == x && x !in s[..k] && r == s[..k] + s[k + 1..]
  {
    var k := IndexOf(s, x);
    assert s == s[..k] + [x] + s[k + 1..];
    assert RemoveAt(s, k) == s[..k] + s[k + 1..];
    assert x !in s[..k];
    RemoveAt(s, k)
  }

  /** Dropping one blob loses exactly the points only it held. */
  lemma RemoveAtCovered(s: seq<Blob>, k: nat)
    requires k < |s|
    ensures forall p :: Covered(s, p) <==> Covered(RemoveAt(s, k), p) || p in s[k].points
  {
    var r := RemoveAt(s, k);
    forall p | Covered(s, p)
      ensures Covered(r, p) || p in s[k].points
    {
      var i :| 0 <= i < |s| && p in s[i].points;
      if i < k {
        assert r[i] == s[i];
      } else if i > k {
        assert r[i - 1] == s[i];
      }
    }
    forall p | Covered(r, p)
      ensures Covered(s, p)
    {
      var i :| 0 <= i < |r| && p in r[i].points;
      if i >= k {
        assert r[i] == s[i + 1];
      }
    }
  }

  lemma RemoveAtKeeps<T>(s: seq<T>, k: nat, y: T)
    requires k < |s| && y in s && y != s[k]
    ensures y in RemoveAt(s, k)
  {
    var r := RemoveAt(s, k);
    var i :| 0 <= i < |s| && s[i] == y;
    if i < k {
      assert r[i] == y;
    } else {
      assert r[i - 1] == y;
    }
  }

  /** Of disjoint blobs, the ones left after dropping one are disjoint, and
      disjoint from the dropped one. */
  lemma RemoveAtDisjoint(s: seq<Blob>, k: nat)
    requires k < |s| && Disjoint(s)
    ensures Disjoint(RemoveAt(s, k))
    ensures forall i :: 0 <= i < |s| - 1 ==> RemoveAt(s, k)[i].points !! s[k].points
  {
    var r := RemoveAt(s, k);
    forall i, j | 0 <= i < |r| && 0 <= j < |r| && i != j
      ensures r[i].points !! r[j].points
    {
      assert r[i] == s[if i < k then i else i + 1];
      assert r[j] == s[if j < k then j else j + 1];
    }
    forall i | 0 <= i < |r|
      ensures r[i].points !! s[k].points
    {
      assert r[i] == s[if i < k then i else i + 1];
    }
  }

  /** One round of `optimizeBlobs`: `candidate` and `mergeWith` removed, their
      union appended under the initial cell of `mergeWith`. */
  function MergeStep(result: seq<Blob>, candidate: Blob, mergeWith: Blob): seq<Blob>
    requires candidate in result && mergeWith in result && mergeWith != candidate
  {
    RemoveAtKeeps(result, IndexOf(result, candidate), mergeWith);
    var rest := RemoveFirst(result, candidate);
    RemoveFirst(rest, mergeWith) + [Blob(mergeWith.initial, mergeWith.points + candidate.points)]
  }

  /** A merge lowers the count by one, keeps the points covered and ends the
      list with the merged blob. */
  lemma MergeStepCovers(result: seq<Blob>, candidate: Blob, mergeWith: Blob)
    requires candidate in result && mergeWith in result && mergeWith != candidate
    ensures |MergeStep(result, candidate, mergeWith)| == |result| - 1
    ensures forall p :: Covered(MergeStep(result, candidate, mergeWith), p) <==> Covered(result, p)
    ensures MergeStep(result, candidate, mergeWith)[|result| - 2] == Blob(mergeWith.initial, mergeWith.points + candidate.points)
  {
    var k1 := IndexOf(result, candidate);
    RemoveAtKeeps(result, k1, mergeWith);
    RemoveAtCovered(result, k1);
    var rest := RemoveAt(result, k1);
    var k2 := IndexOf(rest, mergeWith);
    RemoveAtCovered(rest, k2);
    var rest2 := RemoveAt(rest, k2);
    var merged := Blob(mergeWith.initial, mergeWith.points + candidate.points);
    assert rest2 + [merged] == MergeStep(result, candidate, mergeWith);
    CoveredAppend(rest2, merged);
  }

  /** After two removals from disjoint blobs, what is left is disjoint from
      both removed blobs. */
  lemma RemovedTwiceApart(s: seq<Blob>, k1: nat, k2: nat, i: nat)
    requires Disjoint(s) && k1 < |s| && k2 < |s| - 1 && i < |s| - 2
    ensures RemoveAt(RemoveAt(s, k1), k2)[i].points !! RemoveAt(s, k1)[k2].points
    ensures RemoveAt(RemoveAt(s, k1), k2)[i].points !! s[k1].points
  {
    var rest := RemoveAt(s, k1);
    RemoveAtDisjoint(s, k1);
    RemoveAtDisjoint(rest, k2);
    var j := if i < k2 then i else i + 1;
    assert RemoveAt(rest, k2)[i] == rest[j];
  }

  /** A merge of disjoint blobs leaves disjoint blobs. */
  lemma MergeStepDisjoint(result: seq<Blob>, candidate: Blob, mergeWith: Blob)
    requires candidate in result && mergeWith in result && mergeWith != candidate
    requires Disjoint(result)
    ensures Disjoint(MergeStep(result, candidate, mergeWith))
  {
    var k1 := IndexOf(result, candidate);
    RemoveAtKeeps(result, k1, mergeWith);
    RemoveAtDisjoint(result, k1);
    var rest := RemoveAt(result, k1);
    var k2 := IndexOf(rest, mergeWith);
    RemoveAtDisjoint(rest, k2);
    var rest2 := RemoveAt(rest, k2);
    var merged := Blob(mergeWith.initial, mergeWith.points + candidate.points);
    forall i | 0 <= i < |rest2|
      ensures rest2[i].points !! merged.points
    {
      RemovedTwiceApart(result, k1, k2, i);
    }
    DisjointAppend(rest2, [merged]);
    assert rest2 + [merged] == MergeStep(result, candidate, mergeWith);
  }

  lemma CoveredAppend(s: seq<Blob>, b: Blob)
    ensures forall p :: Covered(s + [b], p) <==> Covered(s, p) || p in b.points
  {
    var r := s + [b];
    forall p | Covered(r, p)
      ensures Covered(s, p) || p in b.points
    {
      var i :| 0 <= i < |r| && p in r[i].points;
      if i < |s| {
        assert r[i] == s[i];
      }
    }
    forall p | Covered(s, p) || p in b.points
      ensures Covered(r, p)
    {
      if p in b.points {
        assert p in r[|s|].points;
      } else {
        var i :| 0 <= i < |s| && p in s[i].points;
        assert r[i] == s[i];
      }
    }
  }

  /** Where `optimizeBlobs` stops: no blob is small, or the first small one
      touches no other blob. */
  ghost predicate MergeDone(blobs: seq<Blob>)
  {
    || (forall i :: 0 <= i < |blobs| ==> !Small(blobs[i]))
    || exists c :: 0 <= c < |blobs| && Small(blobs[c]) && (forall i :: 0 <= i < c ==> !Small(blobs[i]))
         && forall j :: 0 <= j < |blobs| && blobs[j] != blobs[c] ==> !IsNeighbor(blobs[j], blobs[c])
  }

  /** `optimizeBlobs`: as long as the first small blob has a neighbour,
      merge it into the first blob (other than itself) it touches. The
      cells covered never change, disjoint blobs stay disjoint, and every
      merge lowers the count by one. */
  method OptimizeBlobs(blobs: seq<Blob>) returns (result: seq<Blob>)
    ensures forall p :: Covered(result, p) <==> Covered(blobs, p)
    ensures Disjoint(blobs) ==> Disjoint(result)
    ensures |result| <= |blobs|
    ensures MergeDone(result)
  {
    result := blobs;
    while true
      invariant forall p :: Covered(result, p) <==> Covered(blobs, p)
      invariant Disjoint(blobs) ==> Disjoint(result)
      invariant |result| <= |blobs|
      decreases |result|
    {
      var c := FindFirst(result, Small);
      if c.None? {
        break;
      }
      var candidate := result[c.value];
      var w := FindFirst(result, (b: Blob) => b != candidate && IsNeighbor(b, candidate));
      if w.None? {
        break;
      }
      var mergeWith := result[w.value];
      MergeStepCovers(result, candidate, mergeWith);
      if Disjoint(blobs) {
        MergeStepDisjoint(result, candidate, mergeWith);
      }
      result := MergeStep(result, candidate, mergeWith);
    }
  }

  // ----- the blob graph -----

  /** The edges of `findGraph` (node `i` is `blobs[i]`): the pairs `(i, j)`,
      `i < j`, of neighbouring blobs, in the order of the double loop. The
      node attributes (the blob and its centre) are not modelled. */
  method FindGraph(blobs: seq<Blob>) returns (edges: seq<(nat, nat)>)
    ensures forall i: nat, j: nat :: (i, j) in edges <==> i < j < |blobs| && IsNeighbor(blobs[i], blobs[j])
    ensures forall k, l :: 0 <= k < l < |edges| ==> edges[k] != edges[l]
  {
    edges := [];
    var i := 0;
    while i < |blobs|
      invariant i <= |blobs|
      invariant forall a: nat, b: nat :: (a, b) in edges <==> a < i && a < b < |blobs| && IsNeighbor(blobs[a], blobs[b])
      invariant forall k, l :: 0 <= k < l < |edges| ==> edges[k] != edges[l]
    {
      var j := i + 1;
      while j < |blobs|
        invariant i + 1 <= j <= |blobs|
        invariant forall a: nat, b: nat :: (a, b) in edges <==>
          (a < i || (a == i && b < j)) && a < b < |blobs| && IsNeighbor(blobs[a], blobs[b])
        invariant forall k, l :: 0 <= k < l < |edges| ==> edges[k] != edges[l]
      {
        if IsNeighbor(blobs[i], blobs[j]) {
          edges := edges + [(i, j)];
        }
        j := j + 1;
      }
      i := i + 1;
    }
  }

  /** Read without orientation, the edges join exactly the distinct blobs
      that touch. */
  lemma GraphUndirected(blobs: seq<Blob>, edges: seq<(nat, nat)>, i: nat, j: nat)
    requires forall a: nat, b: nat :: (a, b) in edges <==> a < b < |blobs| && IsNeighbor(blobs[a], blobs[b])
    requires i < |blobs| && j < |blobs| && i != j
    ensures (i, j) in edges || (j, i) in edges <==> Touching(blobs[i], blobs[j])
  {
    IsNeighborIff(blobs[i], blobs[j]);
    IsNeighborIff(blobs[j], blobs[i]);
    if Touching(blobs[j], blobs[i]) {
      var q, p :| q in blobs[j].points && p in blobs[i].points && Adjacent(q, p);
      NeighboursAreAdjacent(q, p);
    }
  }

  // ----- the visiting order -----

  /** The tour as `invoke` uses it: a one-node tour doubled. */
  function Doubled(chris: seq<nat>): seq<nat>
  {
    if |chris| == 1 then chris + chris else chris
  }

  /** The blob order of `invoke`, as written: from the root's first position
      up to, but not including, the last entry, then the entries before the
      root. None where `indexOf` gives -1 and `subList` would throw. */
  function OrderedTour(chris: seq<nat>, root: nat): (r: Option<seq<nat>>)
    ensures r.None? <==> root !in chris
    ensures r.Some? ==> |r.value| == |Doubled(chris)| - 1
    ensures r.Some? ==> multiset(r.value) == multiset(Doubled(chris)[..|Doubled(chris)| - 1])
  {
    var c := Doubled(chris);
    if root !in c then None
    else
      var i := IndexOf(c, root);
      var r := c[i..|c| - 1] + c[..i];
      assert c[..|c| - 1] == c[..i] + c[i..|c| - 1];
      Some(r)
  }

  /** The order as written never visits the last entry of the tour: a root
      that sits only there is left out altogether. */
  lemma OrderedTourSkipsLast()
    ensures OrderedTour([0, 1, 2], 0) == Some([0, 1])
    ensures OrderedTour([0, 1, 2], 2) == Some([0, 1])
  {
    var c: seq<nat> := [0, 1, 2];
    assert c[1..] == [1, 2] && c[1..][1..] == [2];
    assert IndexOf(c, 0) == 0;
    assert IndexOf(c, 2) == 2;
    assert c[0..2] + c[..0] == [0, 1];
    assert c[2..2] + c[..2] == [0, 1];
  }

  /** An index past the end of a cycle by less than one lap wraps once. */
  lemma ModOnce(a: nat, n: nat)
    requires 0 < n && a < 2 * n
    ensures a % n == if a < n then a else a - n
  {
    if a >= n {
      assert a == (a - n) + n;
    }
  }

  /** Element j of the tour cut at i and put back the other way round is
      element i + j of the tour read as a cycle. */
  lemma RotationIndex(chris: seq<nat>, i: nat)
    requires i < |chris|
    ensures forall j :: 0 <= j < |chris| ==> (chris[i..] + chris[..i])[j] == chris[(i + j) % |chris|]
  {
    forall j | 0 <= j < |chris|
      ensures (chris[i..] + chris[..i])[j] == chris[(i + j) % |chris|]
    {
      ModOnce(i + j, |chris|);
    }
  }

  /** The evident intent: the rotation of the tour starting at the root,
      visiting every node once. */
  function RotatedTour(chris: seq<nat>, root: nat): (r: Option<seq<nat>>)
    ensures r.None? <==> root !in chris
    ensures r.Some? ==> |r.value| == |chris| && r.value[0] == root
    ensures r.Some? ==> multiset(r.value) == multiset(chris)
    ensures r.Some? ==> forall j :: 0 <= j < |chris| ==>
      r.value[j] == chris[(IndexOf(chris, root) + j) % |chris|]
  {
    if root !in chris then None
    else
      var i := IndexOf(chris, root);
      assert chris == chris[..i] + chris[i..];
      RotationIndex(chris, i);
      Some(chris[i..] + chris[..i])
  }

  // ----- the nearest point above -----

  /** `getNearestUpNeighbor`: among the points strictly above `here`, one
      whose horizontal distance is smallest, ties going to the smallest
      height difference (points are sorted by height, stably, before the
      first minimum is taken). Points tied on both are visited in the
      set's order, which is not fixed: any of them may be returned. */
  method NearestUpNeighbor(here: Point, points: set<Point>) returns (r: Option<Point>)
    ensures r.None? <==> forall p :: p in points ==> p.y <= here.y
    ensures r.Some? ==> r.value in points && r.value.y > here.y
    ensures r.Some? ==> forall p :: p in points && p.y > here.y ==> Abs(r.value.x - here.x) <= Abs(p.x - here.x)
    ensures r.Some? ==> forall p :: p in points && p.y > here.y && Abs(p.x - here.x) == Abs(r.value.x - here.x) ==> r.value.y <= p.y
  {
    var above := set p | p in points && p.y > here.y;
    assert forall p :: p in points && p.y > here.y ==> p in above;
    if above == {} {
      return None;
    }
    var best := LeastBy(above, (p: Point) => Abs(p.x - here.x));
    var ties := set p | p in above && Abs(p.x - here.x) == Abs(best.x - here.x);
    assert best in ties;
    assert forall p :: p in above && Abs(p.x - here.x) == Abs(best.x - here.x) ==> p in ties;
    var pick := LeastBy(ties, (p: Point) => p.y);
    r := Some(pick);
  }
}
