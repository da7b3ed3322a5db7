/** The cell grid of map/GameMap.kt: points, cell statuses, booster kinds,
    the total `get` (absent cells are outer walls), the functional `set`,
    and the integer "supercover" line walk behind the visibility test. */
module Maps {
  import opened Wrappers

  datatype Point = Point(x: int, y: int)

  /** `Point.plus`: translation by an offset. */
  function Plus(p: Point, d: Point): Point
  {
    Point(p.x + d.x, p.y + d.y)
  }

  function Up(p: Point): Point { Point(p.x, p.y + 1) }
  function Down(p: Point): Point { Point(p.x, p.y - 1) }
  function Left(p: Point): Point { Point(p.x - 1, p.y) }
  function Right(p: Point): Point { Point(p.x + 1, p.y) }

  /** The 4-neighbourhood, in the order up, down, left, right. */
  function Neighbours(p: Point): (r: seq<Point>)
    ensures |r| == 4
  {
    [Up(p), Down(p), Left(p), Right(p)]
  }

  predicate Adjacent(p: Point, q: Point)
  {
    q == Up(p) || q == Down(p) || q == Left(p) || q == Right(p)
  }

  lemma NeighboursAreAdjacent(p: Point, q: Point)
    ensures q in Neighbours(p) <==> Adjacent(p, q)
    ensures Adjacent(p, q) <==> Adjacent(q, p)
    ensures Adjacent(p, q) ==> p != q
  {
  }

  function Abs(n: int): nat
  {
    if n < 0 then -n else n
  }

  function Manhattan(p: Point, q: Point): nat
  {
    Abs(p.x - q.x) + Abs(p.y - q.y)
  }

  function SquaredDistance(p: Point, q: Point): nat
  {
    (p.x - q.x) * (p.x - q.x) + (p.y - q.y) * (p.y - q.y)
  }

  datatype Status = EMPTY | WRAP | WALL | SUPERWALL

  function StatusAscii(s: Status): string
  {
    match s
    case EMPTY => "."
    case WRAP => "+"
    case WALL => "#"
    case SUPERWALL => "@"
  }

  /** `Status.isWall`. */
  predicate IsWall(s: Status)
  {
    s == WALL || s == SUPERWALL
  }

  lemma IsWallExactly(s: Status)
    ensures IsWall(s) <==> !(s == EMPTY || s == WRAP)
  {
  }

  /** The booster kinds. CLONING (letter C) is used by the simulator and the
      planners; it has no timer. */
  datatype BoosterType = MANIPULATOR_EXTENSION | FAST_WHEELS | DRILL | MYSTERY | TELEPORT | CLONING

  function Timer(b: BoosterType): nat
  {
    match b
    case FAST_WHEELS => 50
    case DRILL => 30
    case _ => 0
  }

  function BoosterAscii(b: BoosterType): string
  {
    match b
    case MANIPULATOR_EXTENSION => "B"
    case FAST_WHEELS => "F"
    case DRILL => "L"
    case MYSTERY => "X"
    case TELEPORT => "R"
    case CLONING => "C"
  }

  datatype MapError = WrongBoosterType(letter: string)

  /** `BoosterType.from`: the kind whose letter is `s`, or a MapException. */
  function BoosterFrom(s: string): (r: Result<BoosterType, MapError>)
    ensures r.Ok? ==> BoosterAscii(r.value) == s
    ensures r.Err? ==> r.error == WrongBoosterType(s) && forall b :: BoosterAscii(b) != s
  {
    if s == "B" then Ok(MANIPULATOR_EXTENSION)
    else if s == "F" then Ok(FAST_WHEELS)
    else if s == "L" then Ok(DRILL)
    else if s == "X" then Ok(MYSTERY)
    else if s == "R" then Ok(TELEPORT)
    else if s == "C" then Ok(CLONING)
    else Err(WrongBoosterType(s))
  }

  lemma BoosterFromAscii(b: BoosterType)
    ensures BoosterFrom(BoosterAscii(b)) == Ok(b)
  {
  }

  datatype Cell = Cell(status: Status, booster: Option<BoosterType>)

  const Empty := Cell(EMPTY, None)
  const Wrap := Cell(WRAP, None)
  const Wall := Cell(WALL, None)
  const Superwall := Cell(SUPERWALL, None)

  function LowerChar(c: char): char
  {
    if 'A' <= c <= 'Z' then (c as int + 32) as char else c
  }

  /** `toLowerCase` on the ASCII letters the boosters use: each upper-case
      letter becomes its lower-case partner, every other character is
      kept, and no upper-case letter is left. */
  function ToLower(s: string): (r: string)
    ensures |r| == |s|
    ensures forall i :: 0 <= i < |s| && 'A' <= s[i] <= 'Z' ==> r[i] as int - 'a' as int == s[i] as int - 'A' as int
    ensures forall i :: 0 <= i < |s| && !('A' <= s[i] <= 'Z') ==> r[i] == s[i]
    ensures forall i :: 0 <= i < |r| ==> !('A' <= r[i] <= 'Z')
  {
    seq(|s|, i requires 0 <= i < |s| => LowerChar(s[i]))
  }

  /** `Cell.toASCII`: the booster letter on an empty cell, the lower-case
      letter on a wrapped one, the status glyph otherwise. */
  function CellAscii(c: Cell): string
  {
    match c.status
    case EMPTY => if c.booster.Some? then BoosterAscii(c.booster.value) else StatusAscii(EMPTY)
    case WRAP => if c.booster.Some? then ToLower(BoosterAscii(c.booster.value)) else StatusAscii(WRAP)
    case _ => StatusAscii(c.status)
  }

  /** A cell whose glyph shows everything about it: walls hide their booster. */
  predicate FullyShown(c: Cell)
  {
    !IsWall(c.status) || c.booster.None?
  }

  lemma CellAsciiDistinguishes(c1: Cell, c2: Cell)
    requires FullyShown(c1) && FullyShown(c2)
    requires CellAscii(c1) == CellAscii(c2)
    ensures c1 == c2
  {
    if c1.booster.Some? && c2.booster.Some? && c1.status == WRAP && c2.status == WRAP {
      assert ToLower(BoosterAscii(c1.booster.value))[0] == ToLower(BoosterAscii(c2.booster.value))[0];
    }
    if c1.status == WRAP && c1.booster.Some? {
      assert CellAscii(c1)[0] == LowerChar(BoosterAscii(c1.booster.value)[0]);
    }
    if c2.status == WRAP && c2.booster.Some? {
      assert CellAscii(c2)[0] == LowerChar(BoosterAscii(c2.booster.value)[0]);
    }
  }

  /** The immutable map: explicit cells and the bounding box. */
  datatype GameMap = GameMap(cells: map<Point, Cell>, minX: int, maxX: int, minY: int, maxY: int)

  /** `GameMap.get`: total; a point without an entry is an outer wall. */
  function Get(m: GameMap, p: Point): Cell
  {
    if p in m.cells then m.cells[p] else Superwall
  }

  /** `GameMap.set`: a copy with one entry replaced. */
  function Set(m: GameMap, p: Point, c: Cell): GameMap
  {
    m.(cells := m.cells[p := c])
  }

  lemma GetSet(m: GameMap, p: Point, c: Cell, q: Point)
    ensures Get(Set(m, p, c), q) == if q == p then c else Get(m, q)
    ensures Get(m, q) == Superwall <== q !in m.cells
    ensures Set(m, p, c).cells.Keys == m.cells.Keys + {p}
  {
  }

  // ----- supercover line -----

  function Sign(n: int): int
  {
    if n > 0 then 1 else if n < 0 then -1 else 0
  }

  datatype StepKind = Vertical | Horizontal | Diagonal

  /** The exact integer form of the source's floating comparison of
      (0.5 + ix) / nx with (0.5 + iy) / ny (an infinite quotient when a
      denominator is 0). */
  function StepKindAt(nx: nat, ny: nat, ix: nat, iy: nat): StepKind
  {
    if (1 + 2 * ix) * ny > (1 + 2 * iy) * nx then Vertical
    else if (1 + 2 * ix) * ny < (1 + 2 * iy) * nx then Horizontal
    else Diagonal
  }

  lemma MulLe(a: int, b: int, c: nat)
    requires a <= b
    ensures a * c <= b * c
  {
  }

  /** The step chosen never takes a counter past its bound. */
  lemma StepStaysInBounds(nx: nat, ny: nat, ix: nat, iy: nat)
    requires ix <= nx && iy <= ny && (ix < nx || iy < ny)
    ensures StepKindAt(nx, ny, ix, iy) == Vertical ==> iy < ny
    ensures StepKindAt(nx, ny, ix, iy) == Horizontal ==> ix < nx
    ensures StepKindAt(nx, ny, ix, iy) == Diagonal ==> ix < nx && iy < ny
  {
    if iy == ny {
      BelowLastRow(nx, ny, ix);
    } else if ix == nx {
      BelowLastRow(ny, nx, iy);
    }
  }

  /** With `ix < nx`, the quotient for `ix` stays below the one for `ny`. */
  lemma BelowLastRow(nx: nat, ny: nat, ix: nat)
    requires ix < nx
    ensures (1 + 2 * ix) * ny < (1 + 2 * ny) * nx
  {
    MulLe(1 + 2 * ix, 2 * nx - 1, ny);
    assert (2 * nx - 1) * ny == 2 * nx * ny - ny;
    assert (1 + 2 * ny) * nx == nx + 2 * nx * ny;
  }

  /** The points the walk visits after `p`, with counters `ix`, `iy`. */
  function Walk(p: Point, nx: nat, ny: nat, sx: int, sy: int, ix: nat, iy: nat): seq<Point>
    requires ix <= nx && iy <= ny
    decreases (nx - ix) + (ny - iy)
  {
    if ix < nx || iy < ny then
      StepStaysInBounds(nx, ny, ix, iy);
      match StepKindAt(nx, ny, ix, iy)
      case Vertical =>
        var q := Point(p.x, p.y + sy);
        [q] + Walk(q, nx, ny, sx, sy, ix, iy + 1)
      case Horizontal =>
        var q := Point(p.x + sx, p.y);
        [q] + Walk(q, nx, ny, sx, sy, ix + 1, iy)
      case Diagonal =>
        var q := Point(p.x + sx, p.y + sy);
        [q] + Walk(q, nx, ny, sx, sy, ix + 1, iy + 1)
    else []
  }

  /** The supercover line from `from` to `to`, endpoints included. */
  function SupercoverLine(from: Point, to: Point): seq<Point>
  {
    [from] + Walk(from, Abs(to.x - from.x), Abs(to.y - from.y), Sign(to.x - from.x), Sign(to.y - from.y), 0, 0)
  }

  /** One step of the walk: vertical, horizontal or diagonal, toward the target. */
  predicate UnitStep(a: Point, b: Point, sx: int, sy: int)
  {
    b == Point(a.x, a.y + sy) || b == Point(a.x + sx, a.y) || b == Point(a.x + sx, a.y + sy)
  }

  /** The step taken from counters (ix, iy): the point reached and the new counters. */
  function NextPoint(p: Point, k: StepKind, sx: int, sy: int): Point
  {
    match k
    case Vertical => Point(p.x, p.y + sy)
    case Horizontal => Point(p.x + sx, p.y)
    case Diagonal => Point(p.x + sx, p.y + sy)
  }

  lemma WalkUnfold(p: Point, nx: nat, ny: nat, sx: int, sy: int, ix: nat, iy: nat)
    requires ix <= nx && iy <= ny && (ix < nx || iy < ny)
    ensures var k := StepKindAt(nx, ny, ix, iy);
      var ix' := if k == Vertical then ix else ix + 1;
      var iy' := if k == Horizontal then iy else iy + 1;
      && ix' <= nx && iy' <= ny
      && Walk(p, nx, ny, sx, sy, ix, iy) == [NextPoint(p, k, sx, sy)] + Walk(NextPoint(p, k, sx, sy), nx, ny, sx, sy, ix', iy')
  {
    StepStaysInBounds(nx, ny, ix, iy);
  }

  lemma {:induction false} WalkLength(p: Point, nx: nat, ny: nat, sx: int, sy: int, ix: nat, iy: nat)
    requires ix <= nx && iy <= ny
    ensures var n := |Walk(p, nx, ny, sx, sy, ix, iy)|;
      (if nx - ix >= ny - iy then nx - ix else ny - iy) <= n <= (nx - ix) + (ny - iy)
    decreases (nx - ix) + (ny - iy)
  {
    if ix < nx || iy < ny {
      WalkUnfold(p, nx, ny, sx, sy, ix, iy);
      var k := StepKindAt(nx, ny, ix, iy);
      var ix' := if k == Vertical then ix else ix + 1;
      var iy' := if k == Horizontal then iy else iy + 1;
      WalkLength(NextPoint(p, k, sx, sy), nx, ny, sx, sy, ix', iy');
    }
  }

  /** `s` repeated `n` times: the displacement after `n` steps of sign `s`. */
  function Offset(s: int, n: nat): int
  {
    if n == 0 then 0 else Offset(s, n - 1) + s
  }

  lemma {:induction false} OffsetIsProduct(s: int, n: nat)
    ensures Offset(s, n) == s * n
  {
    if n > 0 {
      OffsetIsProduct(s, n - 1);
    }
  }

  lemma {:induction false} WalkEnd(p: Point, nx: nat, ny: nat, sx: int, sy: int, ix: nat, iy: nat)
    requires ix <= nx && iy <= ny
    ensures var w := Walk(p, nx, ny, sx, sy, ix, iy);
      && (w == [] <==> ix == nx && iy == ny)
      && (w != [] ==> w[|w| - 1] == Point(p.x + Offset(sx, nx - ix), p.y + Offset(sy, ny - iy)))
    decreases (nx - ix) + (ny - iy)
  {
    if ix < nx || iy < ny {
      WalkUnfold(p, nx, ny, sx, sy, ix, iy);
      var k := StepKindAt(nx, ny, ix, iy);
      var ix' := if k == Vertical then ix else ix + 1;
      var iy' := if k == Horizontal then iy else iy + 1;
      var q := NextPoint(p, k, sx, sy);
      WalkEnd(q, nx, ny, sx, sy, ix', iy');
      assert q.x == p.x + (if ix' == ix then 0 else sx) && q.y == p.y + (if iy' == iy then 0 else sy);
      assert Offset(sx, nx - ix) == Offset(sx, nx - ix') + (if ix' == ix then 0 else sx);
      assert Offset(sy, ny - iy) == Offset(sy, ny - iy') + (if iy' == iy then 0 else sy);
    }
  }

  lemma {:induction false} WalkSteps(p: Point, nx: nat, ny: nat, sx: int, sy: int, ix: nat, iy: nat)
    requires ix <= nx && iy <= ny
    ensures var w := Walk(p, nx, ny, sx, sy, ix, iy);
      && (w != [] ==> UnitStep(p, w[0], sx, sy))
      && (forall i :: 0 <= i < |w| - 1 ==> UnitStep(w[i], w[i + 1], sx, sy))
    decreases (nx - ix) + (ny - iy)
  {
    if ix < nx || iy < ny {
      WalkUnfold(p, nx, ny, sx, sy, ix, iy);
      var k := StepKindAt(nx, ny, ix, iy);
      var ix' := if k == Vertical then ix else ix + 1;
      var iy' := if k == Horizontal then iy else iy + 1;
      var q := NextPoint(p, k, sx, sy);
      WalkSteps(q, nx, ny, sx, sy, ix', iy');
      var w := Walk(p, nx, ny, sx, sy, ix, iy);
      var rest := Walk(q, nx, ny, sx, sy, ix', iy');
      forall i | 0 <= i < |w| - 1
        ensures UnitStep(w[i], w[i + 1], sx, sy)
      {
        if i > 0 {
          assert w[i] == rest[i - 1] && w[i + 1] == rest[i];
        }
      }
    }
  }

  lemma SignTimesAbs(d: int)
    ensures Sign(d) * Abs(d) == d
  {
  }

  /** The line starts at `from` and ends at `to`. */
  lemma SupercoverLineEnds(from: Point, to: Point)
    ensures var line := SupercoverLine(from, to);
      line[0] == from && line[|line| - 1] == to
  {
    var nx, ny := Abs(to.x - from.x), Abs(to.y - from.y);
    var sx, sy := Sign(to.x - from.x), Sign(to.y - from.y);
    WalkEnd(from, nx, ny, sx, sy, 0, 0);
    OffsetIsProduct(sx, nx);
    OffsetIsProduct(sy, ny);
    SignTimesAbs(to.x - from.x);
    SignTimesAbs(to.y - from.y);
  }

  /** Every step of the line moves each coordinate by at most one toward
      `to`, and there are between max(nx, ny) and nx + ny of them. */
  lemma SupercoverLineSteps(from: Point, to: Point)
    ensures var line := SupercoverLine(from, to);
      var nx := Abs(to.x - from.x);
      var ny := Abs(to.y - from.y);
      && (if nx >= ny then nx else ny) <= |line| - 1 <= nx + ny
      && (forall i :: 0 <= i < |line| - 1 ==>
            UnitStep(line[i], line[i + 1], Sign(to.x - from.x), Sign(to.y - from.y)))
  {
    var nx, ny := Abs(to.x - from.x), Abs(to.y - from.y);
    var sx, sy := Sign(to.x - from.x), Sign(to.y - from.y);
    WalkLength(from, nx, ny, sx, sy, 0, 0);
    WalkSteps(from, nx, ny, sx, sy, 0, 0);
    var w := Walk(from, nx, ny, sx, sy, 0, 0);
    var line := SupercoverLine(from, to);
    assert line == [from] + w;
    forall i | 0 <= i < |line| - 1
      ensures UnitStep(line[i], line[i + 1], sx, sy)
    {
      if i > 0 {
        assert line[i] == w[i - 1] && line[i + 1] == w[i];
      }
    }
  }

  /** The line starts at `from`, ends at `to`, moves each coordinate by at
      most one toward `to` per step, and takes between max(nx, ny) and
      nx + ny steps. */
  lemma SupercoverLineShape(from: Point, to: Point)
    ensures var line := SupercoverLine(from, to);
      var nx := Abs(to.x - from.x);
      var ny := Abs(to.y - from.y);
      && line[0] == from
      && line[|line| - 1] == to
      && (if nx >= ny then nx else ny) <= |line| - 1 <= nx + ny
      && (forall i :: 0 <= i < |line| - 1 ==>
            UnitStep(line[i], line[i + 1], Sign(to.x - from.x), Sign(to.y - from.y)))
  {
    SupercoverLineEnds(from, to);
    SupercoverLineSteps(from, to);
  }

  /** `getSupercoverLine`: the walk as the source runs it, appending to a list. */
  method GetSupercoverLine(from: Point, to: Point) returns (points: seq<Point>)
    ensures points == SupercoverLine(from, to)
  {
    var dx := to.x - from.x;
    var dy := to.y - from.y;
    var nx := Abs(dx);
    var ny := Abs(dy);
    var signX := Sign(dx);
    var signY := Sign(dy);
    var p := from;
    points := [p];
    var ix: nat, iy: nat := 0, 0;
    while ix < nx || iy < ny
      invariant ix <= nx && iy <= ny
      invariant points + Walk(p, nx, ny, signX, signY, ix, iy) == SupercoverLine(from, to)
      decreases (nx - ix) + (ny - iy)
    {
      StepStaysInBounds(nx, ny, ix, iy);
      ghost var before := Walk(p, nx, ny, signX, signY, ix, iy);
      if (1 + 2 * ix) * ny > (1 + 2 * iy) * nx {
        p := p.(y := p.y + signY);
        iy := iy + 1;
      } else if (1 + 2 * ix) * ny < (1 + 2 * iy) * nx {
        p := p.(x := p.x + signX);
        ix := ix + 1;
      } else {
        p := p.(x := p.x + signX, y := p.y + signY);
        ix := ix + 1;
        iy := iy + 1;
      }
      assert before == [p] + Walk(p, nx, ny, signX, signY, ix, iy);
      points := points + [p];
    }
  }

  /** Visibility: no point of the supercover line, endpoints included, is a wall. */
  predicate Visible(m: GameMap, from: Point, to: Point)
  {
    forall q :: q in SupercoverLine(from, to) ==> !IsWall(Get(m, q).status)
  }

  /** `isVisible`: walks the line and stops at the first wall. */
  method IsVisible(m: GameMap, from: Point, to: Point) returns (b: bool)
    ensures b <==> Visible(m, from, to)
    ensures b ==> !IsWall(Get(m, from).status) && !IsWall(Get(m, to).status)
  {
    var points := GetSupercoverLine(from, to);
    SupercoverLineShape(from, to);
    var i := 0;
    while i < |points|
      invariant 0 <= i <= |points|
      invariant forall j :: 0 <= j < i ==> !IsWall(Get(m, points[j]).status)
    {
      if IsWall(Get(m, points[i]).status) {
        return false;
      }
      i := i + 1;
    }
    return true;
  }

  /** Changing only non-wall statuses to non-wall statuses keeps every line
      of sight as it was. */
  lemma VisibleUnchanged(m: GameMap, p: Point, c: Cell, from: Point, to: Point)
    requires !IsWall(c.status) && !IsWall(Get(m, p).status)
    ensures Visible(Set(m, p, c), from, to) == Visible(m, from, to)
  {
    forall q | q in SupercoverLine(from, to)
      ensures IsWall(Get(Set(m, p, c), q).status) == IsWall(Get(m, q).status)
    {
      GetSet(m, p, c, q);
    }
  }
}
