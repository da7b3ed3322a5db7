/** The tunnel generator of generator/TunnelGenerator.kt: a matrix of
    WALL and PATH cells, the local wall patterns ("fragment types") read
    around a wall cell, the guarded placement of one wall, the corner
    appending pass, and `generate`, which lays out paths, a border ring and
    the wall routes before appending corners. */
module TunnelGen {
  import opened Wrappers
  import Maps
  import GenParameters

  type Point = Maps.Point

  datatype Cell = WALL | PATH

  datatype FragmentType =
    | INNER_CORNER_UL | INNER_CORNER_UR | INNER_CORNER_DL | INNER_CORNER_DR
    | OUTER_CORNER_UL | OUTER_CORNER_UR | OUTER_CORNER_DL | OUTER_CORNER_DR
    | LONG_CORNER_000000011 | LONG_CORNER_000000110 | LONG_CORNER_011000000 | LONG_CORNER_110000000
    | LONG_CORNER_001001000 | LONG_CORNER_000001001 | LONG_CORNER_100100000 | LONG_CORNER_000100100
    | PLACE_U | PLACE_L | PLACE_D | PLACE_R

  const FRAGMENT_TYPES: set<FragmentType> :=
    {INNER_CORNER_UL, INNER_CORNER_UR, INNER_CORNER_DL, INNER_CORNER_DR,
     OUTER_CORNER_UL, OUTER_CORNER_UR, OUTER_CORNER_DL, OUTER_CORNER_DR,
     LONG_CORNER_000000011, LONG_CORNER_000000110, LONG_CORNER_011000000, LONG_CORNER_110000000,
     LONG_CORNER_001001000, LONG_CORNER_000001001, LONG_CORNER_100100000, LONG_CORNER_000100100,
     PLACE_U, PLACE_L, PLACE_D, PLACE_R}

  const CORNERS: set<FragmentType> :=
    {INNER_CORNER_UL, INNER_CORNER_UR, INNER_CORNER_DL, INNER_CORNER_DR,
     OUTER_CORNER_UL, OUTER_CORNER_UR, OUTER_CORNER_DL, OUTER_CORNER_DR}

  // ----- reading the matrix -----

  /** `isWall`: the cell is present and WALL; an absent cell is not. */
  predicate IsWall(m: map<Point, Cell>, p: Point)
  {
    p in m && m[p] == Cell.WALL
  }

  /** `isPath`: the cell is present and PATH. */
  predicate IsPath(m: map<Point, Cell>, p: Point)
  {
    p in m && m[p] == Cell.PATH
  }

  /** A cell is a wall, a path or absent, and exactly one of them. */
  lemma CellKinds(m: map<Point, Cell>, p: Point)
    ensures p !in m <==> !IsWall(m, p) && !IsPath(m, p)
    ensures !(IsWall(m, p) && IsPath(m, p))
  {
  }

  /** The cells `generate` returns: every WALL key. */
  function Walls(m: map<Point, Cell>): (r: set<Point>)
    ensures forall p :: p in r <==> IsWall(m, p)
  {
    set p | p in m && m[p] == Cell.WALL
  }

  /** `falseWall(point)`: one of the four diagonal neighbours is a wall
      while the two cells beside `point` on that side are not. */
  predicate FalseWall(m: map<Point, Cell>, p: Point)
  {
    (IsWall(m, Maps.Left(Maps.Up(p))) && !IsWall(m, Maps.Up(p)) && !IsWall(m, Maps.Left(p))) ||
    (IsWall(m, Maps.Right(Maps.Up(p))) && !IsWall(m, Maps.Up(p)) && !IsWall(m, Maps.Right(p))) ||
    (IsWall(m, Maps.Left(Maps.Down(p))) && !IsWall(m, Maps.Down(p)) && !IsWall(m, Maps.Left(p))) ||
    (IsWall(m, Maps.Right(Maps.Down(p))) && !IsWall(m, Maps.Down(p)) && !IsWall(m, Maps.Right(p)))
  }

  /** The diagonal neighbour of `p` at offset (dx, dy) is a wall and touches
      `p` at a corner only: neither cell between them is a wall. */
  predicate CornerOnly(m: map<Point, Cell>, p: Point, dx: int, dy: int)
  {
    IsWall(m, Maps.Point(p.x + dx, p.y + dy)) && !IsWall(m, Maps.Point(p.x, p.y + dy)) && !IsWall(m, Maps.Point(p.x + dx, p.y))
  }

  predicate Unit(d: int)
  {
    d == -1 || d == 1
  }

  /** A wall would be false exactly when some diagonal neighbour meets it
      at a corner only. */
  lemma FalseWallDiagonal(m: map<Point, Cell>, p: Point)
    ensures FalseWall(m, p) <==> exists dx, dy :: Unit(dx) && Unit(dy) && CornerOnly(m, p, dx, dy)
  {
    if FalseWall(m, p) {
      if IsWall(m, Maps.Left(Maps.Up(p))) && !IsWall(m, Maps.Up(p)) && !IsWall(m, Maps.Left(p)) {
        assert CornerOnly(m, p, -1, 1);
      } else if IsWall(m, Maps.Right(Maps.Up(p))) && !IsWall(m, Maps.Up(p)) && !IsWall(m, Maps.Right(p)) {
        assert CornerOnly(m, p, 1, 1);
      } else if IsWall(m, Maps.Left(Maps.Down(p))) && !IsWall(m, Maps.Down(p)) && !IsWall(m, Maps.Left(p)) {
        assert CornerOnly(m, p, -1, -1);
      } else {
        assert CornerOnly(m, p, 1, -1);
      }
    }
  }

  /** No wall meets another wall at a corner only. */
  ghost predicate NoCornerContact(m: map<Point, Cell>)
  {
    forall p {:trigger FalseWall(m, p)} :: IsWall(m, p) ==> !FalseWall(m, p)
  }

  /** Writing a wall where it would not be false keeps every wall free of
      corner-only contacts: the new wall has none, and it can only give an
      old wall a side neighbour, never take one away. */
  lemma WallKeepsNoCornerContact(m: map<Point, Cell>, p: Point)
    requires NoCornerContact(m) && !FalseWall(m, p)
    ensures NoCornerContact(m[p := Cell.WALL])
  {
    var m' := m[p := Cell.WALL];
    forall q | IsWall(m', q)
      ensures !FalseWall(m', q)
    {
      if q != p {
        assert IsWall(m, q);
        assert !FalseWall(m, q);
        WallNeighbourhood(m, p, q);
      }
    }
  }

  /** The step of `WallKeepsNoCornerContact` for one old wall `q`. */
  lemma WallNeighbourhood(m: map<Point, Cell>, p: Point, q: Point)
    requires q != p && IsWall(m, q) && !FalseWall(m, q) && !FalseWall(m, p)
    ensures !FalseWall(m[p := Cell.WALL], q)
  {
  }

  // ----- fragment types -----

  /** The pattern of fragment type `t` around `p`, with the cell two columns
      to the side checked in all four sideways long corners. Every pattern
      needs `p` itself to be a wall. */
  predicate Matches(m: map<Point, Cell>, p: Point, t: FragmentType)
  {
    IsWall(m, p) &&
    match t
    case OUTER_CORNER_UL => !IsWall(m, Maps.Up(p)) && !IsWall(m, Maps.Left(p)) && !IsWall(m, Maps.Left(Maps.Up(p)))
    case OUTER_CORNER_UR => !IsWall(m, Maps.Up(p)) && !IsWall(m, Maps.Right(p)) && !IsWall(m, Maps.Right(Maps.Up(p)))
    case OUTER_CORNER_DL => !IsWall(m, Maps.Down(p)) && !IsWall(m, Maps.Left(p)) && !IsWall(m, Maps.Left(Maps.Down(p)))
    case OUTER_CORNER_DR => !IsWall(m, Maps.Down(p)) && !IsWall(m, Maps.Right(p)) && !IsWall(m, Maps.Right(Maps.Down(p)))
    case INNER_CORNER_UL => IsWall(m, Maps.Up(p)) && IsWall(m, Maps.Left(p)) && !IsWall(m, Maps.Left(Maps.Up(p)))
    case INNER_CORNER_UR => IsWall(m, Maps.Up(p)) && IsWall(m, Maps.Right(p)) && !IsWall(m, Maps.Right(Maps.Up(p)))
    case INNER_CORNER_DL => IsWall(m, Maps.Down(p)) && IsWall(m, Maps.Left(p)) && !IsWall(m, Maps.Left(Maps.Down(p)))
    case INNER_CORNER_DR => IsWall(m, Maps.Down(p)) && IsWall(m, Maps.Right(p)) && !IsWall(m, Maps.Right(Maps.Down(p)))
    case PLACE_U => IsWall(m, Maps.Left(p)) && IsWall(m, Maps.Right(p)) && RowFree(m, Maps.Up(p)) && RowFree(m, Maps.Up(Maps.Up(p)))
    case PLACE_D => IsWall(m, Maps.Left(p)) && IsWall(m, Maps.Right(p)) && RowFree(m, Maps.Down(p)) && RowFree(m, Maps.Down(Maps.Down(p)))
    case PLACE_L => IsWall(m, Maps.Up(p)) && IsWall(m, Maps.Down(p)) && ColumnFree(m, Maps.Left(p)) && ColumnFree(m, Maps.Left(Maps.Left(p)))
    case PLACE_R => IsWall(m, Maps.Up(p)) && IsWall(m, Maps.Down(p)) && ColumnFree(m, Maps.Right(p)) && ColumnFree(m, Maps.Right(Maps.Right(p)))
    case LONG_CORNER_000000011 => !IsWall(m, Maps.Left(p)) && IsWall(m, Maps.Right(p)) && RowFree(m, Maps.Up(p)) && RowFree(m, Maps.Up(Maps.Up(p)))
    case LONG_CORNER_000000110 => IsWall(m, Maps.Left(p)) && !IsWall(m, Maps.Right(p)) && RowFree(m, Maps.Up(p)) && RowFree(m, Maps.Up(Maps.Up(p)))
    case LONG_CORNER_011000000 => !IsWall(m, Maps.Left(p)) && IsWall(m, Maps.Right(p)) && RowFree(m, Maps.Down(p)) && RowFree(m, Maps.Down(Maps.Down(p)))
    case LONG_CORNER_110000000 => IsWall(m, Maps.Left(p)) && !IsWall(m, Maps.Right(p)) && RowFree(m, Maps.Down(p)) && RowFree(m, Maps.Down(Maps.Down(p)))
    case LONG_CORNER_001001000 => IsWall(m, Maps.Up(p)) && !IsWall(m, Maps.Down(p)) && ColumnFree(m, Maps.Left(p)) && ColumnFree(m, Maps.Left(Maps.Left(p)))
    case LONG_CORNER_000001001 => !IsWall(m, Maps.Up(p)) && IsWall(m, Maps.Down(p)) && ColumnFree(m, Maps.Left(p)) && ColumnFree(m, Maps.Left(Maps.Left(p)))
    case LONG_CORNER_100100000 => IsWall(m, Maps.Up(p)) && !IsWall(m, Maps.Down(p)) && ColumnFree(m, Maps.Right(p)) && ColumnFree(m, Maps.Right(Maps.Right(p)))
    case LONG_CORNER_000100100 => !IsWall(m, Maps.Up(p)) && IsWall(m, Maps.Down(p)) && ColumnFree(m, Maps.Right(p)) && ColumnFree(m, Maps.Right(Maps.Right(p)))
  }

  /** Three cells in a row centred on `c` hold no wall. */
  predicate RowFree(m: map<Point, Cell>, c: Point)
  {
    !IsWall(m, c) && !IsWall(m, Maps.Left(c)) && !IsWall(m, Maps.Right(c))
  }

  /** Three cells in a column centred on `c` hold no wall. */
  predicate ColumnFree(m: map<Point, Cell>, c: Point)
  {
    !IsWall(m, c) && !IsWall(m, Maps.Up(c)) && !IsWall(m, Maps.Down(c))
  }

  /** The four sideways long corners as written: their last test repeats
      the cell below the near column instead of the one below the far
      column, so that far cell is never looked at. */
  predicate MatchesAsWritten(m: map<Point, Cell>, p: Point, t: FragmentType)
  {
    match t
    case LONG_CORNER_001001000 =>
      IsWall(m, p) && IsWall(m, Maps.Up(p)) && !IsWall(m, Maps.Down(p)) && ColumnFree(m, Maps.Left(p)) &&
      !IsWall(m, Maps.Left(Maps.Left(p))) && !IsWall(m, Maps.Up(Maps.Left(Maps.Left(p)))) && !IsWall(m, Maps.Down(Maps.Left(p)))
    case LONG_CORNER_000001001 =>
      IsWall(m, p) && !IsWall(m, Maps.Up(p)) && IsWall(m, Maps.Down(p)) && ColumnFree(m, Maps.Left(p)) &&
      !IsWall(m, Maps.Left(Maps.Left(p))) && !IsWall(m, Maps.Up(Maps.Left(Maps.Left(p)))) && !IsWall(m, Maps.Down(Maps.Left(p)))
    case LONG_CORNER_100100000 =>
      IsWall(m, p) && IsWall(m, Maps.Up(p)) && !IsWall(m, Maps.Down(p)) && ColumnFree(m, Maps.Right(p)) &&
      !IsWall(m, Maps.Right(Maps.Right(p))) && !IsWall(m, Maps.Up(Maps.Right(Maps.Right(p)))) && !IsWall(m, Maps.Down(Maps.Right(p)))
    case LONG_CORNER_000100100 =>
      IsWall(m, p) && !IsWall(m, Maps.Up(p)) && IsWall(m, Maps.Down(p)) && ColumnFree(m, Maps.Right(p)) &&
      !IsWall(m, Maps.Right(Maps.Right(p))) && !IsWall(m, Maps.Up(Maps.Right(Maps.Right(p)))) && !IsWall(m, Maps.Down(Maps.Right(p)))
    case _ => Matches(m, p, t)
  }

  /** `getFragmentTypes(point)` as evidently intended: every type whose
      corrected pattern holds around it. */
  function FragmentTypes(m: map<Point, Cell>, p: Point): (r: set<FragmentType>)
    ensures forall t :: t in r <==> Matches(m, p, t)
  {
    set t | t in FRAGMENT_TYPES && Matches(m, p, t)
  }

  /** `getFragmentTypes(point)` as written, which is what `countCorners`
      and `appendCorners` read. */
  function FragmentTypesAsWritten(m: map<Point, Cell>, p: Point): (r: set<FragmentType>)
    ensures forall t :: t in r <==> MatchesAsWritten(m, p, t)
  {
    set t | t in FRAGMENT_TYPES && MatchesAsWritten(m, p, t)
  }

  /** A cell that is not a wall has no fragment type. */
  lemma NonWallHasNoFragments(m: map<Point, Cell>, p: Point)
    requires !IsWall(m, p)
    ensures FragmentTypes(m, p) == {} && FragmentTypesAsWritten(m, p) == {}
  {
    assert forall t :: !Matches(m, p, t);
    assert forall t :: !MatchesAsWritten(m, p, t);
  }

  /** The corrected patterns only add a test: whatever they accept, the
      written ones accept too, and the two agree on every other type. */
  lemma AsWrittenAcceptsMore(m: map<Point, Cell>, p: Point)
    ensures FragmentTypes(m, p) <= FragmentTypesAsWritten(m, p)
    ensures FragmentTypesAsWritten(m, p) - FragmentTypes(m, p) <=
      {LONG_CORNER_001001000, LONG_CORNER_000001001, LONG_CORNER_100100000, LONG_CORNER_000100100}
  {
    forall t | Matches(m, p, t)
      ensures MatchesAsWritten(m, p, t)
    {
    }
  }

  // ----- the patterns turned a quarter -----

  /** Reflection in the diagonal x = y: up becomes right, down left. */
  function Turn(p: Point): Point
  {
    Maps.Point(p.y, p.x)
  }

  function Turned(m: map<Point, Cell>): map<Point, Cell>
  {
    map q | q in (set k | k in m :: Turn(k)) :: m[Turn(q)]
  }

  lemma TurnedWall(m: map<Point, Cell>)
    ensures forall q :: IsWall(Turned(m), q) <==> IsWall(m, Turn(q))
  {
    forall q: Point
      ensures IsWall(Turned(m), q) <==> IsWall(m, Turn(q))
    {
      if Turn(q) in m {
        assert Turn(Turn(q)) == q;
      }
    }
  }

  /** The type a pattern becomes when the matrix is reflected: up and
      right trade places, and so do down and left. */
  function TurnType(t: FragmentType): FragmentType
  {
    match t
    case OUTER_CORNER_UL => OUTER_CORNER_DR
    case OUTER_CORNER_DR => OUTER_CORNER_UL
    case OUTER_CORNER_UR => OUTER_CORNER_UR
    case OUTER_CORNER_DL => OUTER_CORNER_DL
    case INNER_CORNER_UL => INNER_CORNER_DR
    case INNER_CORNER_DR => INNER_CORNER_UL
    case INNER_CORNER_UR => INNER_CORNER_UR
    case INNER_CORNER_DL => INNER_CORNER_DL
    case PLACE_U => PLACE_R
    case PLACE_R => PLACE_U
    case PLACE_D => PLACE_L
    case PLACE_L => PLACE_D
    case LONG_CORNER_000000011 => LONG_CORNER_100100000
    case LONG_CORNER_100100000 => LONG_CORNER_000000011
    case LONG_CORNER_000000110 => LONG_CORNER_000100100
    case LONG_CORNER_000100100 => LONG_CORNER_000000110
    case LONG_CORNER_011000000 => LONG_CORNER_001001000
    case LONG_CORNER_001001000 => LONG_CORNER_011000000
    case LONG_CORNER_110000000 => LONG_CORNER_000001001
    case LONG_CORNER_000001001 => LONG_CORNER_110000000
  }

  /** Every pattern is its turned type's pattern seen in the reflected
      matrix: the twenty patterns are closed under the reflection. */
  lemma TurnedPattern(m: map<Point, Cell>, p: Point, t: FragmentType)
    ensures Matches(m, p, t) <==> Matches(Turned(m), Turn(p), TurnType(t))
  {
    TurnedWall(m);
    Reflected(m, Turned(m), p, t);
  }

  /** `TurnedPattern` for any matrix `r` whose walls are those of `m`
      reflected. */
  lemma Reflected(m: map<Point, Cell>, r: map<Point, Cell>, p: Point, t: FragmentType)
    requires forall q :: IsWall(r, q) <==> IsWall(m, Turn(q))
    ensures Matches(m, p, t) <==> Matches(r, Turn(p), TurnType(t))
  {
  }

  /** A wall with a wall above it and a wall two columns to the left, one
      row down: the written pattern reports a long corner there although
      the far column is not free, and the turned matrix shows no long
      corner at the turned point, so the written patterns are not the
      vertical ones turned. */
  lemma AsWrittenMissesFarCell()
    ensures LONG_CORNER_001001000 in FragmentTypesAsWritten(Shoulder(), Maps.Point(5, 5))
    ensures LONG_CORNER_001001000 !in FragmentTypes(Shoulder(), Maps.Point(5, 5))
    ensures LONG_CORNER_011000000 !in FragmentTypesAsWritten(Turned(Shoulder()), Turn(Maps.Point(5, 5)))
  {
    var m := Shoulder();
    assert IsWall(m, Maps.Point(5, 5)) && IsWall(m, Maps.Point(5, 6)) && IsWall(m, Maps.Point(3, 4));
    assert MatchesAsWritten(m, Maps.Point(5, 5), LONG_CORNER_001001000);
    TurnedWall(m);
    assert IsWall(Turned(m), Maps.Point(4, 3));
  }

  /** The three walls of `AsWrittenMissesFarCell`. */
  function Shoulder(): map<Point, Cell>
  {
    map[Maps.Point(5, 5) := Cell.WALL, Maps.Point(5, 6) := Cell.WALL, Maps.Point(3, 4) := Cell.WALL]
  }

  // ----- corners -----

  /** How many corner types one cell shows. */
  function CornerWeight(m: map<Point, Cell>, p: Point): nat
  {
    |FragmentTypesAsWritten(m, p) * CORNERS|
  }

  /** A cell shows at most the eight corner types there are. */
  lemma CornerWeightBound(m: map<Point, Cell>, p: Point)
    ensures CornerWeight(m, p) <= 8
  {
    var shown := FragmentTypesAsWritten(m, p) * CORNERS;
    assert CORNERS == shown + (CORNERS - shown);
    assert |CORNERS| == |shown| + |CORNERS - shown|;
    CornersHasEight();
  }

  lemma CornersHasEight()
    ensures |CORNERS| == 8
  {
  }

  /** The corners shown by the cells of `s`, summed. */
  ghost function CornerCount(m: map<Point, Cell>, s: set<Point>): int
    decreases s
  {
    if s == {} then 0
    else
      var p :| p in s;
      CornerWeight(m, p) + CornerCount(m, s - {p})
  }

  /** The sum does not depend on the order in which cells are taken. */
  lemma {:induction false} CornerCountRemove(m: map<Point, Cell>, s: set<Point>, q: Point)
    requires q in s
    ensures CornerCount(m, s) == CornerWeight(m, q) + CornerCount(m, s - {q})
    decreases s
  {
    var p :| p in s && CornerCount(m, s) == CornerWeight(m, p) + CornerCount(m, s - {p});
    if p != q {
      CornerCountRemove(m, s - {p}, q);
      CornerCountRemove(m, s - {q}, p);
      assert s - {p} - {q} == s - {q} - {p};
    }
  }

  /** The corners of a set of cells: none to eight per cell. */
  lemma {:induction false} CornerCountBounds(m: map<Point, Cell>, s: set<Point>)
    ensures 0 <= CornerCount(m, s) <= 8 * |s|
    decreases s
  {
    if s != {} {
      var p :| p in s && CornerCount(m, s) == CornerWeight(m, p) + CornerCount(m, s - {p});
      CornerCountBounds(m, s - {p});
      CornerWeightBound(m, p);
      assert |s - {p}| == |s| - 1;
    }
  }

  // ----- the move a wall offers -----

  /** Where a new wall goes, and how many corners it is worth. */
  datatype Move = Move(target: Point, cost: int)

  /** The `else if` chain of `appendCorners` over a cell's fragment types:
      the first placement or long-corner type present, in the chain's
      order. */
  function Leading(fs: set<FragmentType>): Option<FragmentType>
  {
    if PLACE_U in fs then Some(PLACE_U)
    else if PLACE_D in fs then Some(PLACE_D)
    else if PLACE_L in fs then Some(PLACE_L)
    else if PLACE_R in fs then Some(PLACE_R)
    else if LONG_CORNER_000000011 in fs then Some(LONG_CORNER_000000011)
    else if LONG_CORNER_000000110 in fs then Some(LONG_CORNER_000000110)
    else if LONG_CORNER_110000000 in fs then Some(LONG_CORNER_110000000)
    else if LONG_CORNER_011000000 in fs then Some(LONG_CORNER_011000000)
    else if LONG_CORNER_001001000 in fs then Some(LONG_CORNER_001001000)
    else if LONG_CORNER_000001001 in fs then Some(LONG_CORNER_000001001)
    else if LONG_CORNER_100100000 in fs then Some(LONG_CORNER_100100000)
    else if LONG_CORNER_000100100 in fs then Some(LONG_CORNER_000100100)
    else None
  }

  /** The neighbour of `p` a branch of the chain tries; corner types take
      no branch and stay at `p`. */
  function Toward(p: Point, t: FragmentType): Point
  {
    match t
    case PLACE_U | LONG_CORNER_000000011 | LONG_CORNER_000000110 => Maps.Up(p)
    case PLACE_D | LONG_CORNER_110000000 | LONG_CORNER_011000000 => Maps.Down(p)
    case PLACE_L | LONG_CORNER_001001000 | LONG_CORNER_000001001 => Maps.Left(p)
    case PLACE_R | LONG_CORNER_100100000 | LONG_CORNER_000100100 => Maps.Right(p)
    case _ => p
  }

  /** What a branch takes off the budget when its wall is placed. */
  function Price(t: FragmentType): int
  {
    if t in PLACES then 4 else 2
  }

  /** The move the chain makes for a cell with fragment types `fs`. */
  function CornerMove(fs: set<FragmentType>, p: Point): Option<Move>
  {
    match Leading(fs)
    case None => None
    case Some(t) => Some(Move(Toward(p, t), Price(t)))
  }

  /** The types that offer a move, and among them the placements. */
  const MOVERS: set<FragmentType> :=
    {PLACE_U, PLACE_D, PLACE_L, PLACE_R,
     LONG_CORNER_000000011, LONG_CORNER_000000110, LONG_CORNER_011000000, LONG_CORNER_110000000,
     LONG_CORNER_001001000, LONG_CORNER_000001001, LONG_CORNER_100100000, LONG_CORNER_000100100}

  const PLACES: set<FragmentType> := {PLACE_U, PLACE_D, PLACE_L, PLACE_R}

  /** A move is offered exactly when a placement or long-corner type is
      present, and then by one of them; it is worth four corners after a
      placement type and two after a long corner. */
  lemma CornerMoveOffered(fs: set<FragmentType>, p: Point)
    ensures CornerMove(fs, p).None? <==> fs !! MOVERS
    ensures Leading(fs).Some? ==> Leading(fs).value in fs * MOVERS
    ensures CornerMove(fs, p).Some? ==> (CornerMove(fs, p).value.cost == 4 <==> fs * PLACES != {})
    ensures CornerMove(fs, p).Some? ==> CornerMove(fs, p).value.cost == 4 || CornerMove(fs, p).value.cost == 2
  {
    if PLACE_U in fs {
      assert PLACE_U in fs * PLACES;
    } else if PLACE_D in fs {
      assert PLACE_D in fs * PLACES;
    } else if PLACE_L in fs {
      assert PLACE_L in fs * PLACES;
    } else if PLACE_R in fs {
      assert PLACE_R in fs * PLACES;
    } else {
      assert fs * PLACES == {};
    }
  }

  /** Every placement or long-corner pattern, as written, leaves the
      neighbour its branch tries free of walls, beside a wall. The
      corrected patterns are stricter, so the same holds for them. */
  lemma MoverTarget(m: map<Point, Cell>, p: Point, t: FragmentType)
    requires t in MOVERS && MatchesAsWritten(m, p, t)
    ensures IsWall(m, p) && !IsWall(m, Toward(p, t)) && Maps.Manhattan(p, Toward(p, t)) == 1
  {
  }

  /** So the move a wall offers, read from the written fragment types as
      `appendCorners` reads them, grows it into a side neighbour that is
      not a wall yet. */
  lemma CornerMoveTarget(m: map<Point, Cell>, p: Point)
    requires CornerMove(FragmentTypesAsWritten(m, p), p).Some?
    ensures IsWall(m, p)
    ensures !IsWall(m, CornerMove(FragmentTypesAsWritten(m, p), p).value.target)
    ensures Maps.Manhattan(p, CornerMove(FragmentTypesAsWritten(m, p), p).value.target) == 1
  {
    var fs := FragmentTypesAsWritten(m, p);
    CornerMoveOffered(fs, p);
    MoverTarget(m, p, Leading(fs).value);
  }

  /** The move the chain offers for fragment types `fs`, kept only when
      `addWallIfCan` would accept its target. */
  function Offer(m: map<Point, Cell>, fs: set<FragmentType>, p: Point, size: int): Option<Move>
  {
    match CornerMove(fs, p)
    case None => None
    case Some(mv) => if Addable(m, mv.target, size) then Some(mv) else None
  }

  /** The move from `p` that `appendCorners` makes, if any: the chain runs
      over the fragment types as written. */
  function Extension(m: map<Point, Cell>, p: Point, size: int): Option<Move>
  {
    Offer(m, FragmentTypesAsWritten(m, p), p, size)
  }

  /** On the shoulder matrix the written pattern takes the chain into the
      left branch, whose target is a false wall, so the pass makes no move
      at (5,5); with the corrected patterns the chain would reach the
      right branch and grow the wall to (6,5). */
  lemma WrittenPassStalls()
    ensures Extension(Shoulder(), Maps.Point(5, 5), 10).None?
    ensures Offer(Shoulder(), FragmentTypes(Shoulder(), Maps.Point(5, 5)), Maps.Point(5, 5), 10)
      == Some(Move(Maps.Point(6, 5), 2))
  {
    var m, p := Shoulder(), Maps.Point(5, 5);
    var written, corrected := FragmentTypesAsWritten(m, p), FragmentTypes(m, p);
    ShoulderWrittenLeading();
    ShoulderCorrectedLeading();
    assert CornerMove(written, p) == Some(Move(Maps.Point(4, 5), 2));
    assert CornerMove(corrected, p) == Some(Move(Maps.Point(6, 5), 2));
    ShoulderTargets();
  }

  /** The left target of the shoulder is a false wall, the right one is
      free. */
  lemma ShoulderTargets()
    ensures !Addable(Shoulder(), Maps.Point(4, 5), 10)
    ensures Addable(Shoulder(), Maps.Point(6, 5), 10)
  {
    assert FalseWall(Shoulder(), Maps.Point(4, 5));
    assert !FalseWall(Shoulder(), Maps.Point(6, 5));
  }

  /** On the shoulder matrix no placement and no upward or downward long
      corner holds at (5,5), under either reading. */
  lemma ShoulderNoEarlyBranch()
    ensures forall t :: t in PLACES ==> !MatchesAsWritten(Shoulder(), Maps.Point(5, 5), t)
    ensures !MatchesAsWritten(Shoulder(), Maps.Point(5, 5), LONG_CORNER_000000011)
    ensures !MatchesAsWritten(Shoulder(), Maps.Point(5, 5), LONG_CORNER_000000110)
    ensures !MatchesAsWritten(Shoulder(), Maps.Point(5, 5), LONG_CORNER_110000000)
    ensures !MatchesAsWritten(Shoulder(), Maps.Point(5, 5), LONG_CORNER_011000000)
  {
    var m, p := Shoulder(), Maps.Point(5, 5);
    assert !IsWall(m, Maps.Left(p)) && !IsWall(m, Maps.Right(p)) && !IsWall(m, Maps.Down(p));
    assert IsWall(m, Maps.Up(p));
  }

  /** The written chain at (5,5) of the shoulder takes the left branch. */
  lemma ShoulderWrittenLeading()
    ensures Leading(FragmentTypesAsWritten(Shoulder(), Maps.Point(5, 5))) == Some(LONG_CORNER_001001000)
  {
    ShoulderNoEarlyBranch();
    AsWrittenMissesFarCell();
  }

  /** The corrected chain at (5,5) of the shoulder takes the right branch. */
  lemma ShoulderCorrectedLeading()
    ensures Leading(FragmentTypes(Shoulder(), Maps.Point(5, 5))) == Some(LONG_CORNER_100100000)
  {
    var m, p := Shoulder(), Maps.Point(5, 5);
    ShoulderNoEarlyBranch();
    AsWrittenAcceptsMore(m, p);
    AsWrittenMissesFarCell();
    assert !Matches(m, p, LONG_CORNER_000001001) by {
      assert !IsWall(m, Maps.Up(p)) == false;
    }
    assert Matches(m, p, LONG_CORNER_100100000) by {
      assert ColumnFree(m, Maps.Right(p)) && ColumnFree(m, Maps.Right(Maps.Right(p)));
    }
  }

  predicate InSquare(p: Point, size: int)
  {
    0 <= p.x < size && 0 <= p.y < size
  }

  /** What `addWallIfCan` checks: inside the square, not a wall yet, and
      not a false wall. */
  predicate Addable(m: map<Point, Cell>, p: Point, size: int)
  {
    InSquare(p, size) && !IsWall(m, p) && !FalseWall(m, p)
  }

  // ----- how the matrix may change -----

  /** From `m0` to `m` cells are only added or turned into walls inside the
      square: nothing is removed, and every change writes WALL. */
  ghost predicate Grown(m0: map<Point, Cell>, m: map<Point, Cell>, size: int)
  {
    (forall p :: p in m0 ==> p in m) &&
    (forall p :: p in m ==> (p in m0 && m[p] == m0[p]) || (m[p] == Cell.WALL && InSquare(p, size)))
  }

  /** So walls stay walls. */
  lemma GrownKeepsWalls(m0: map<Point, Cell>, m: map<Point, Cell>, size: int, p: Point)
    requires Grown(m0, m, size) && IsWall(m0, p)
    ensures IsWall(m, p)
  {
  }

  lemma GrownAdd(m0: map<Point, Cell>, m: map<Point, Cell>, size: int, p: Point)
    requires Grown(m0, m, size) && InSquare(p, size)
    ensures Grown(m0, m[p := Cell.WALL], size)
  {
  }

  /** The free cells of the square, which bound how many walls can still be
      appended. */
  ghost function Square(size: int): set<Point>
  {
    set x, y | 0 <= x < size && 0 <= y < size :: Maps.Point(x, y)
  }

  ghost function Room(m: map<Point, Cell>, size: int): nat
  {
    |Square(size) - Walls(m)|
  }

  lemma RoomShrinks(m: map<Point, Cell>, p: Point, size: int)
    requires InSquare(p, size) && !IsWall(m, p)
    ensures Room(m[p := Cell.WALL], size) < Room(m, size)
  {
    var m' := m[p := Cell.WALL];
    assert p in Square(size);
    assert Square(size) - Walls(m') == (Square(size) - Walls(m)) - {p};
  }

  /** A set given by its members is the set of new walls. */
  lemma NewWalls(appended: set<Point>, m0: map<Point, Cell>, m: map<Point, Cell>)
    requires forall p :: p in appended <==> IsWall(m, p) && !IsWall(m0, p)
    ensures appended == Walls(m) - Walls(m0)
  {
  }

  /** Why `appendCorners` stopped: its budget was spent, a whole pass over
      the walls appended nothing, or there was no wall to start a pass with
      (where the source's iterator throws). */
  datatype Outcome = Spent | Stuck | NoWalls

  class TunnelGenerator {
    const parameters: GenParameters.Parameters
    var matrix: map<Point, Cell>

    constructor(parameters: GenParameters.Parameters)
      ensures this.parameters == parameters && matrix == map[]
    {
      this.parameters := parameters;
      matrix := map[];
    }

    /** `addWallIfCan(point)`. */
    method AddWallIfCan(point: Point) returns (added: bool)
      modifies this
      ensures added <==> Addable(old(matrix), point, parameters.mapSize)
      ensures matrix == if added then old(matrix)[point := Cell.WALL] else old(matrix)
    {
      if point.x < 0 || point.y < 0 {
        return false;
      }
      if point.x >= parameters.mapSize {
        return false;
      }
      if point.y >= parameters.mapSize {
        return false;
      }
      if IsWall(matrix, point) {
        return false;
      }
      if FalseWall(matrix, point) {
        return false;
      }
      matrix := matrix[point := Cell.WALL];
      return true;
    }

    /** `countCorners()`: the corners shown by all walls. */
    method CountCorners() returns (count: int)
      ensures count == CornerCount(matrix, Walls(matrix))
    {
      var rest := Walls(matrix);
      count := 0;
      while rest != {}
        invariant count + CornerCount(matrix, rest) == CornerCount(matrix, Walls(matrix))
        decreases |rest|
      {
        var p :| p in rest;
        CornerCountRemove(matrix, rest, p);
        count := count + |FragmentTypesAsWritten(matrix, p) * CORNERS|;
        rest := rest - {p};
      }
    }

    /** The WALL keys, listed in some order, as a pass of `appendCorners`
        takes them. */
    method WallList() returns (ps: seq<Point>)
      ensures forall q :: q in ps <==> IsWall(matrix, q)
    {
      var rest := Walls(matrix);
      ps := [];
      while rest != {}
        invariant forall q :: q in ps || q in rest <==> IsWall(matrix, q)
        decreases |rest|
      {
        var q :| q in rest;
        ps := ps + [q];
        rest := rest - {q};
      }
    }

    /** One step of `appendCorners` at `point`: the move its fragment types
        offer, made if `addWallIfCan` accepts it. The result is that move,
        or None when nothing was written. */
    method TryExtend(point: Point) returns (made: Option<Move>)
      modifies this
      ensures made == Extension(old(matrix), point, parameters.mapSize)
      ensures matrix == if made.Some? then old(matrix)[made.value.target := Cell.WALL] else old(matrix)
    {
      var fragments := FragmentTypesAsWritten(matrix, point);
      var offer := CornerMove(fragments, point);
      made := None;
      if offer.Some? {
        var added := AddWallIfCan(offer.value.target);
        if added {
          made := offer;
        }
      }
    }

    /** `appendCorners()`. The budget starts at `verticesMin` less the
        corners already present, plus four; each appended wall spends the
        price of its move. Passes go over a snapshot of the walls; the
        method stops when the budget is below zero, or at the start of a
        pass when the previous pass spent nothing. The source runs one loop
        that refills an iterator; here each pass is a call of `Pass`. */
    method AppendCorners() returns (outcome: Outcome)
      modifies this
      ensures Grown(old(matrix), matrix, parameters.mapSize)
      ensures NoCornerContact(old(matrix)) ==> NoCornerContact(matrix)
      ensures outcome == Stuck ==>
        forall p :: IsWall(matrix, p) ==> Extension(matrix, p, parameters.mapSize).None?
      ensures outcome == Spent ==>
        4 * |Walls(matrix) - Walls(old(matrix))| >
          parameters.verticesMin - CornerCount(old(matrix), Walls(old(matrix))) + 4
      ensures outcome == NoWalls ==> Walls(matrix) == {} && Walls(old(matrix)) == {}
    {
      var corners := CountCorners();
      var available := parameters.verticesMin - corners + 4;
      ghost var budget := available;
      var previous := available + 1;
      ghost var appended: set<Point> := {};
      while available >= 0
        invariant Grown(old(matrix), matrix, parameters.mapSize)
        invariant NoCornerContact(old(matrix)) ==> NoCornerContact(matrix)
        invariant NewWallsAre(appended, old(matrix), matrix)
        invariant available >= budget - 4 * |appended|
        invariant previous == available ==> AllBlocked(matrix, parameters.mapSize)
        decreases Room(matrix, parameters.mapSize), if previous == available then 0 else 1
      {
        if previous == available {
          return Stuck;
        }
        previous := available;
        var snapshot := WallList();
        if snapshot == [] {
          NoneLeft(old(matrix), matrix, parameters.mapSize);
          return NoWalls;
        }
        ghost var before := matrix;
        ghost var added;
        available, added := Pass(snapshot, available);
        assert Progress(before, matrix, added, previous, available, parameters.mapSize);
        GrownTrans(old(matrix), before, matrix, parameters.mapSize);
        NewWallsJoin(appended, added, old(matrix), before, matrix, parameters.mapSize);
        appended := appended + added;
      }
      NewWalls(appended, old(matrix), matrix);
      return Spent;
    }

    /** One pass of `appendCorners` over `snapshot`, from budget `start`:
        each point in turn offers its move, until the points run out or the
        budget drops below zero. `added` holds the walls appended. */
    method Pass(snapshot: seq<Point>, start: int) returns (available: int, ghost added: set<Point>)
      requires start >= 0
      modifies this
      ensures Progress(old(matrix), matrix, added, start, available, parameters.mapSize)
      ensures available == start ==> matrix == old(matrix) && Stalled(matrix, snapshot, parameters.mapSize)
    {
      available := start;
      added := {};
      var i := 0;
      while i < |snapshot| && available >= 0
        invariant 0 <= i <= |snapshot|
        invariant Progress(old(matrix), matrix, added, start, available, parameters.mapSize)
        invariant available == start ==> matrix == old(matrix) && Stalled(matrix, snapshot[..i], parameters.mapSize)
      {
        ghost var before, was := matrix, available;
        available, added := Visit(snapshot[i], old(matrix), added, start, available);
        if available == start {
          assert was == start && matrix == before;
          StalledGrows(matrix, snapshot, i, parameters.mapSize);
        }
        i := i + 1;
      }
      if available == start {
        assert snapshot[..i] == snapshot;
      }
    }

    /** The body of a pass at one point: its move is made if it can be,
        and the budget pays the move's price. */
    method Visit(point: Point, ghost m0: map<Point, Cell>, ghost added: set<Point>, ghost start: int, available: int)
      returns (left: int, ghost added': set<Point>)
      requires Progress(m0, matrix, added, start, available, parameters.mapSize)
      requires available == start ==> matrix == m0
      modifies this
      ensures Progress(m0, matrix, added', start, left, parameters.mapSize)
      ensures left <= available
      ensures left == available ==> matrix == old(matrix) && Extension(matrix, point, parameters.mapSize).None?
    {
      ghost var before := matrix;
      var made := TryExtend(point);
      left, added' := available, added;
      if made.Some? {
        ExtensionFacts(before, point, parameters.mapSize);
        Appended(m0, before, made.value.target, parameters.mapSize, added);
        AppendedKeeps(before, made.value.target, parameters.mapSize);
        added' := added + {made.value.target};
        left := available - made.value.cost;
      }
    }

    /** `removeCorners()` is empty in the source; `generate` calls it to no
        effect, so it is not modelled. */

    /** `generateWalls(point)` after its route search: every cell of the
        route found becomes a wall. The search itself is not modelled;
        `route` stands for its result. */
    method GenerateWalls(route: seq<Point>)
      modifies this
      ensures forall q :: IsWall(matrix, q) <==> IsWall(old(matrix), q) || q in route
      ensures forall q :: q in matrix <==> q in old(matrix) || q in route
      ensures forall q :: q in matrix && q !in route ==> matrix[q] == old(matrix)[q]
    {
      var i := 0;
      while i < |route|
        invariant 0 <= i <= |route|
        invariant forall q :: IsWall(matrix, q) <==> IsWall(old(matrix), q) || q in route[..i]
        invariant forall q :: q in matrix <==> q in old(matrix) || q in route[..i]
        invariant forall q :: q in matrix && q !in route[..i] ==> matrix[q] == old(matrix)[q]
      {
        assert route[..i + 1] == route[..i] + [route[i]];
        matrix := matrix[route[i] := Cell.WALL];
        i := i + 1;
      }
      assert route[..i] == route;
    }

    /** The first line of `generate`: every path point becomes PATH. */
    method MarkPaths()
      modifies this
      ensures forall q :: q in parameters.pathsPoints ==> q in matrix && matrix[q] == Cell.PATH
      ensures forall q :: q in matrix <==> q in old(matrix) || q in parameters.pathsPoints
      ensures forall q :: q in matrix && q !in parameters.pathsPoints ==> matrix[q] == old(matrix)[q]
    {
      var rest := parameters.pathsPoints;
      while rest != {}
        invariant rest <= parameters.pathsPoints
        invariant forall q :: q in parameters.pathsPoints && q !in rest ==> q in matrix && matrix[q] == Cell.PATH
        invariant forall q :: q in matrix <==> q in old(matrix) || (q in parameters.pathsPoints && q !in rest)
        invariant forall q :: q in matrix && (q !in parameters.pathsPoints || q in rest) ==> matrix[q] == old(matrix)[q]
        decreases |rest|
      {
        var q :| q in rest;
        matrix := matrix[q := Cell.PATH];
        rest := rest - {q};
      }
    }

    /** The border loop of `generate`: for i from -1 to `mapSize` inclusive
        the four cells (i, -1), (-1, i), (i, mapSize) and (mapSize, i)
        become walls, which rings the square; nothing else changes. */
    method MarkBorder()
      modifies this
      ensures forall q :: OnRing(q, parameters.mapSize) ==> IsWall(matrix, q)
      ensures forall q :: q in matrix <==> q in old(matrix) || OnRing(q, parameters.mapSize)
      ensures forall q :: q in matrix && !OnRing(q, parameters.mapSize) ==> matrix[q] == old(matrix)[q]
    {
      var size := parameters.mapSize;
      var i := -1;
      while i <= size
        invariant -1 <= i && (i <= size + 1 || size < -1)
        invariant forall q :: RingBefore(q, size, i) ==> IsWall(matrix, q)
        invariant forall q :: q in matrix <==> q in old(matrix) || RingBefore(q, size, i)
        invariant forall q :: q in matrix && !RingBefore(q, size, i) ==> matrix[q] == old(matrix)[q]
      {
        ghost var before := matrix;
        matrix := matrix[Maps.Point(i, -1) := Cell.WALL][Maps.Point(-1, i) := Cell.WALL]
          [Maps.Point(i, size) := Cell.WALL][Maps.Point(size, i) := Cell.WALL];
        BorderStep(before, matrix, size, i);
        i := i + 1;
      }
      assert forall q :: OnRing(q, size) ==> RingBefore(q, size, i);
    }

    /** `generate()` given the routes the searches of `generateWalls` find,
        one per wall point in the order the points are visited. The result
        is the set of WALL keys, or None where the corner pass finds no
        wall to iterate over and the source throws. */
    method Generate(routes: seq<seq<Point>>) returns (r: Option<set<Point>>)
      modifies this
      ensures parameters.mapSize >= -1 ==> r.Some?
      ensures r.Some? ==> r.value == Walls(matrix)
      ensures r.Some? ==> forall q :: OnRing(q, parameters.mapSize) ==> IsWall(matrix, q)
      ensures r.Some? ==> forall k, q :: 0 <= k < |routes| && q in routes[k] ==> IsWall(matrix, q)
      ensures forall q :: q in parameters.pathsPoints ==> q in matrix
    {
      MarkPaths();
      MarkBorder();
      var k := 0;
      while k < |routes|
        invariant 0 <= k <= |routes|
        invariant forall q :: OnRing(q, parameters.mapSize) ==> IsWall(matrix, q)
        invariant forall j, q :: 0 <= j < k && q in routes[j] ==> IsWall(matrix, q)
        invariant forall q :: q in parameters.pathsPoints ==> q in matrix
      {
        GenerateWalls(routes[k]);
        k := k + 1;
      }
      ghost var laid := matrix;
      assert parameters.mapSize >= -1 ==> IsWall(laid, Maps.Point(-1, -1));
      var outcome := AppendCorners();
      forall q | IsWall(laid, q)
        ensures IsWall(matrix, q)
      {
        GrownKeepsWalls(laid, matrix, parameters.mapSize, q);
      }
      if outcome == NoWalls {
        return None;
      }
      r := Some(Walls(matrix));
    }
  }

  /** The cells around the square [0, size)^2: the border of [-1, size]^2. */
  predicate OnRing(q: Point, size: int)
  {
    -1 <= q.x <= size && -1 <= q.y <= size &&
    (q.x == -1 || q.y == -1 || q.x == size || q.y == size)
  }

  /** The ring cells written by the steps before `i` of the border loop. */
  predicate RingBefore(q: Point, size: int, i: int)
  {
    OnRing(q, size) &&
    (((q.y == -1 || q.y == size) && q.x < i) || ((q.x == -1 || q.x == size) && q.y < i))
  }

  /** Step `i` of the border loop writes exactly the four cells that join
      the ring cells written so far. */
  lemma RingStep(size: int, i: int)
    requires -1 <= i <= size
    ensures forall q :: RingBefore(q, size, i + 1) <==>
      (RingBefore(q, size, i) || q == Maps.Point(i, -1) || q == Maps.Point(-1, i) ||
       q == Maps.Point(i, size) || q == Maps.Point(size, i))
  {
    forall q: Point
      ensures RingBefore(q, size, i + 1) <==>
        (RingBefore(q, size, i) || q == Maps.Point(i, -1) || q == Maps.Point(-1, i) ||
         q == Maps.Point(i, size) || q == Maps.Point(size, i))
    {
      assert q == Maps.Point(q.x, q.y);
    }
  }

  /** One step of the border loop, in terms of the ring cells written. */
  lemma BorderStep(m: map<Point, Cell>, m': map<Point, Cell>, size: int, i: int)
    requires -1 <= i <= size
    requires m' == m[Maps.Point(i, -1) := Cell.WALL][Maps.Point(-1, i) := Cell.WALL]
      [Maps.Point(i, size) := Cell.WALL][Maps.Point(size, i) := Cell.WALL]
    ensures forall q :: RingBefore(q, size, i + 1) && !RingBefore(q, size, i) ==> IsWall(m', q)
    ensures forall q :: IsWall(m, q) ==> IsWall(m', q)
    ensures forall q :: q in m ==> q in m'
    ensures forall q :: q in m' && !RingBefore(q, size, i + 1) ==> q in m && m'[q] == m[q]
  {
    RingStep(size, i);
  }

  /** A pass that finds no wall: none was there at the start either. */
  lemma NoneLeft(m0: map<Point, Cell>, m: map<Point, Cell>, size: int)
    requires Grown(m0, m, size) && forall q :: !IsWall(m, q)
    ensures Walls(m) == {} && Walls(m0) == {}
  {
    forall q | IsWall(m0, q)
      ensures false
    {
      GrownKeepsWalls(m0, m, size, q);
    }
  }

  /** A move that can be made is a wall `addWallIfCan` accepts, priced at
      two or four corners. */
  lemma ExtensionFacts(m: map<Point, Cell>, p: Point, size: int)
    requires Extension(m, p, size).Some?
    ensures Addable(m, Extension(m, p, size).value.target, size)
    ensures 2 <= Extension(m, p, size).value.cost <= 4
  {
    CornerMoveOffered(FragmentTypesAsWritten(m, p), p);
  }

  /** An appended wall is a new wall inside the square. */
  lemma Appended(m0: map<Point, Cell>, m: map<Point, Cell>, t: Point, size: int, appended: set<Point>)
    requires Grown(m0, m, size) && Addable(m, t, size)
    requires NewWallsAre(appended, m0, m)
    ensures Grown(m0, m[t := Cell.WALL], size) && t !in appended
    ensures NewWallsAre(appended + {t}, m0, m[t := Cell.WALL])
  {
    GrownAdd(m0, m, size, t);
  }

  /** An appended wall takes one free cell of the square and makes no
      corner-only contact. */
  lemma AppendedKeeps(m: map<Point, Cell>, t: Point, size: int)
    requires Addable(m, t, size)
    ensures Room(m[t := Cell.WALL], size) < Room(m, size)
    ensures NoCornerContact(m) ==> NoCornerContact(m[t := Cell.WALL])
  {
    RoomShrinks(m, t, size);
    if NoCornerContact(m) {
      WallKeepsNoCornerContact(m, t);
    }
  }

  /** The new walls from `m0` to `m` are the members of `appended`. */
  ghost predicate NewWallsAre(appended: set<Point>, m0: map<Point, Cell>, m: map<Point, Cell>)
  {
    forall p :: p in appended <==> IsWall(m, p) && !IsWall(m0, p)
  }

  /** What a run of `appendCorners` keeps from `m0` to `m`: the matrix
      only grows, by the walls `added`, with no new corner-only contact;
      the budget, spent from `start` down to `available`, paid at most four
      per wall, and a spent budget means a free cell of the square was
      taken. */
  ghost predicate Progress(m0: map<Point, Cell>, m: map<Point, Cell>, added: set<Point>, start: int, available: int, size: int)
  {
    Grown(m0, m, size) &&
    (NoCornerContact(m0) ==> NoCornerContact(m)) &&
    NewWallsAre(added, m0, m) &&
    start - 4 * |added| <= available <= start &&
    (available != start ==> Room(m, size) < Room(m0, size))
  }

  /** No point of `ps` has a move that can be made in `m`. */
  ghost predicate Stalled(m: map<Point, Cell>, ps: seq<Point>, size: int)
  {
    forall q :: q in ps ==> Extension(m, q, size).None?
  }

  lemma StalledGrows(m: map<Point, Cell>, ps: seq<Point>, i: nat, size: int)
    requires i < |ps| && Stalled(m, ps[..i], size) && Extension(m, ps[i], size).None?
    ensures Stalled(m, ps[..i + 1], size)
  {
    assert ps[..i + 1] == ps[..i] + [ps[i]];
  }

  /** No wall of `m` has a move that can be made. */
  ghost predicate AllBlocked(m: map<Point, Cell>, size: int)
  {
    forall p :: IsWall(m, p) ==> Extension(m, p, size).None?
  }

  lemma GrownTrans(m0: map<Point, Cell>, m1: map<Point, Cell>, m2: map<Point, Cell>, size: int)
    requires Grown(m0, m1, size) && Grown(m1, m2, size)
    ensures Grown(m0, m2, size)
  {
  }

  /** The walls appended by two runs in a row are those of both. */
  lemma NewWallsJoin(a: set<Point>, b: set<Point>, m0: map<Point, Cell>, m1: map<Point, Cell>, m2: map<Point, Cell>, size: int)
    requires NewWallsAre(a, m0, m1) && NewWallsAre(b, m1, m2)
    requires Grown(m0, m1, size) && Grown(m1, m2, size)
    ensures NewWallsAre(a + b, m0, m2) && a !! b && |a + b| == |a| + |b|
  {
  }
}
