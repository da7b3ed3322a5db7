/** The scoring pieces of player/StupidPersistentBot.kt: `groups`, which
    counts the same-status regions of the map with a union-find, and the
    search node `SimAndCommand` with its `empties` score and its successor
    list. */
module PersistentBot {
  import opened Wrappers
  import opened Maps
  import opened Sim
  import opened DisjointSets

  // ----- groups -----

  /** What `groups` establishes for cell `p` and one neighbour `q`: both
      are present, and when their statuses (by `get`, so absent points
      count as outer walls) agree they have one representative. */
  ghost predicate NeighbourDone(m: GameMap, rep: map<Point, nat>, p: Point, q: Point)
  {
    p in rep && q in rep && (Get(m, q).status == Get(m, p).status ==> rep[p] == rep[q])
  }

  /** Cell `p` has been handled: the above holds for all four neighbours. */
  ghost predicate CellDone(m: GameMap, rep: map<Point, nat>, p: Point)
  {
    forall q {:trigger Adjacent(p, q)} :: Adjacent(p, q) ==> NeighbourDone(m, rep, p, q)
  }

  /** Inside the handling of cell `p`: the cells in `done` are handled,
      `p` is present and its first `i` neighbours are done. */
  ghost predicate CellState(m: GameMap, rep: map<Point, nat>, done: set<Point>, p: Point, i: nat)
  {
    && i <= 4 && p in rep
    && (forall d :: d in done ==> CellDone(m, rep, d))
    && forall k :: 0 <= k < i ==> NeighbourDone(m, rep, p, Neighbours(p)[k])
  }

  /** A coarser partition keeps every handled cell handled. */
  lemma CoarserKeepsDone(m: GameMap, rep: map<Point, nat>, rep2: map<Point, nat>, done: set<Point>)
    requires Coarser(rep, rep2)
    requires forall d :: d in done ==> CellDone(m, rep, d)
    ensures forall d :: d in done ==> CellDone(m, rep2, d)
  {
    forall d, q | d in done && Adjacent(d, q)
      ensures NeighbourDone(m, rep2, d, q)
    {
      assert NeighbourDone(m, rep, d, q);
    }
  }

  /** Handling one more neighbour of `p` advances the state. */
  lemma CellStep(m: GameMap, rep: map<Point, nat>, rep2: map<Point, nat>, done: set<Point>, p: Point, i: nat)
    requires CellState(m, rep, done, p, i) && i < 4
    requires Coarser(rep, rep2) && NeighbourDone(m, rep2, p, Neighbours(p)[i])
    ensures CellState(m, rep2, done, p, i + 1)
  {
    CoarserKeepsDone(m, rep, rep2, done);
    forall k | 0 <= k < i
      ensures NeighbourDone(m, rep2, p, Neighbours(p)[k])
    {
      assert NeighbourDone(m, rep, p, Neighbours(p)[k]);
    }
  }

  /** After the four neighbours, `p` itself is handled. */
  lemma CellFinished(m: GameMap, rep: map<Point, nat>, done: set<Point>, p: Point)
    requires CellState(m, rep, done, p, 4)
    ensures forall d :: d in done + {p} ==> CellDone(m, rep, d)
  {
    forall q | Adjacent(p, q)
      ensures NeighbourDone(m, rep, p, q)
    {
      NeighboursAreAdjacent(p, q);
    }
  }

  /** The body of the outer loop of `groups` for one cell: add it, then add
      each neighbour and union it with the cell when their statuses agree. */
  method GroupCell(m: GameMap, dj: DisjointSets<Point>, p: Point, ghost done: set<Point>)
    requires dj.Valid()
    requires forall d :: d in done ==> CellDone(m, dj.Rep(), d)
    modifies dj
    ensures dj.Valid()
    ensures forall d :: d in done + {p} ==> CellDone(m, dj.Rep(), d)
  {
    var _ := dj.Add(p);
    CoarserKeepsDone(m, old(dj.Rep()), dj.Rep(), done);
    var ns := Neighbours(p);
    var i := 0;
    while i < 4
      invariant dj.Valid() && CellState(m, dj.Rep(), done, p, i)
    {
      ghost var rep0 := dj.Rep();
      AddNeighbour(m, dj, p, ns[i]);
      CellStep(m, rep0, dj.Rep(), done, p, i);
      i := i + 1;
    }
    CellFinished(m, dj.Rep(), done, p);
  }

  /** The inner loop body of `groups`: add the neighbour `q` of `p`, and
      union the two when their statuses agree. */
  method AddNeighbour(m: GameMap, dj: DisjointSets<Point>, p: Point, q: Point)
    requires dj.Valid() && p in dj.Rep()
    modifies dj
    ensures dj.Valid() && Coarser(old(dj.Rep()), dj.Rep())
    ensures NeighbourDone(m, dj.Rep(), p, q)
  {
    var _ := dj.Add(q);
    if Get(m, q).status == Get(m, p).status {
      var _ := dj.Union(p, q);
    }
  }

  /** The distinct representatives of `keys`. */
  ghost function Image(rep: map<Point, nat>, keys: set<Point>): set<nat>
    requires keys <= rep.Keys
  {
    set k | k in keys :: rep[k]
  }

  lemma ImageAdd(rep: map<Point, nat>, keys: set<Point>, k: Point)
    requires keys <= rep.Keys && k in rep
    ensures Image(rep, keys + {k}) == Image(rep, keys) + {rep[k]}
  {
  }

  /** Between one and |keys| groups for non-empty keys. */
  lemma {:induction false} ImageBounds(rep: map<Point, nat>, keys: set<Point>)
    requires keys <= rep.Keys
    ensures |Image(rep, keys)| <= |keys|
    ensures keys != {} ==> |Image(rep, keys)| >= 1
    decreases |keys|
  {
    if keys != {} {
      var k :| k in keys;
      ImageBounds(rep, keys - {k});
      assert keys == (keys - {k}) + {k};
      ImageAdd(rep, keys - {k}, k);
    }
  }

  /** `Simulator.groups`: every cell and each of its four neighbours are put
      in a union-find, adjacent points of equal status are united, and the
      number of distinct representatives over the cells is returned. The
      cells are visited in the map's order, which is not fixed. */
  method Groups(m: GameMap) returns (count: nat, dj: DisjointSets<Point>)
    ensures fresh(dj) && dj.Valid() && m.cells.Keys <= dj.Rep().Keys
    ensures forall p :: p in m.cells ==> CellDone(m, dj.Rep(), p)
    ensures count == |Image(dj.Rep(), m.cells.Keys)|
  {
    dj := new DisjointSets<Point>();
    var todo := m.cells.Keys;
    ghost var done: set<Point> := {};
    while todo != {}
      invariant dj.Valid() && todo <= m.cells.Keys
      invariant forall d :: d in m.cells.Keys ==> d in done || d in todo
      invariant forall d :: d in done ==> CellDone(m, dj.Rep(), d)
      decreases |todo|
    {
      var p :| p in todo;
      GroupCell(m, dj, p, done);
      done := done + {p};
      todo := todo - {p};
    }
    CellsPresent(m, dj.Rep());
    count := CountRoots(dj, m.cells.Keys);
  }

  /** The last line of `groups`: the size of the set of `root`s of the
      keys, which is the number of distinct representatives among them. */
  method CountRoots(dj: DisjointSets<Point>, keys: set<Point>) returns (count: nat)
    requires dj.Valid() && keys <= dj.Rep().Keys
    modifies dj
    ensures dj.Valid() && dj.Rep() == old(dj.Rep())
    ensures count == |Image(dj.Rep(), keys)|
  {
    ghost var rep := dj.Rep();
    ghost var seen: set<Point> := {};
    var roots: set<nat> := {};
    var rest := keys;
    while rest != {}
      invariant dj.Valid() && dj.Rep() == rep
      invariant rest <= keys && seen <= keys
      invariant forall k :: k in keys ==> k in seen || k in rest
      invariant roots == Image(rep, seen)
      decreases |rest|
    {
      var k :| k in rest;
      var r := dj.RootOf(k);
      ImageAdd(rep, seen, k);
      seen := seen + {k};
      roots := roots + {r};
      rest := rest - {k};
    }
    assert seen == keys;
    count := |roots|;
  }

  /** Every handled cell is in the union-find. */
  lemma CellsPresent(m: GameMap, rep: map<Point, nat>)
    requires forall p :: p in m.cells ==> CellDone(m, rep, p)
    ensures m.cells.Keys <= rep.Keys
  {
    forall p | p in m.cells
      ensures p in rep
    {
      assert Adjacent(p, Up(p));
      assert NeighbourDone(m, rep, p, Up(p));
    }
  }

  /** The count `groups` returns is between one and the number of cells
      for a non-empty map, and zero for an empty one. */
  lemma GroupsBounds(m: GameMap, rep: map<Point, nat>)
    requires m.cells.Keys <= rep.Keys
    ensures |Image(rep, m.cells.Keys)| <= |m.cells|
    ensures m.cells != map[] <==> |Image(rep, m.cells.Keys)| >= 1
  {
    ImageBounds(rep, m.cells.Keys);
    if m.cells == map[] {
      assert m.cells.Keys == {};
    } else {
      assert |m.cells.Keys| == |m.cells|;
    }
  }

  /** Two adjacent cells of one status are in one group. */
  lemma SameStatusSameGroup(m: GameMap, rep: map<Point, nat>, p: Point, q: Point)
    requires forall c :: c in m.cells ==> CellDone(m, rep, c)
    requires p in m.cells && Adjacent(p, q) && Get(m, q).status == Get(m, p).status
    ensures p in rep && q in rep && rep[p] == rep[q]
  {
    assert NeighbourDone(m, rep, p, q);
  }

  // ----- the search node -----

  /** `SimAndCommand`: a world, the command that produced it and the points
      still to be painted. */
  datatype SimAndCommand = SimAndCommand(sim: Simulator, command: Command, points: set<Point>)

  /** The map cells among `points` that are still EMPTY. */
  function EmptyCells(m: GameMap, points: set<Point>): set<Point>
  {
    set p | p in points && p in m.cells && m.cells[p].status == EMPTY
  }

  /** `empties`: the number of map cells among the points that are still
      EMPTY; points outside the map do not count. */
  function Empties(node: SimAndCommand): (r: nat)
    ensures r <= |node.points|
    ensures r == 0 <==> forall p :: p in node.points && p in node.sim.gameMap.cells ==> node.sim.gameMap.cells[p].status != EMPTY
  {
    var e := EmptyCells(node.sim.gameMap, node.points);
    SubsetCard(e, node.points);
    EmptyCellsNone(node.sim.gameMap, node.points);
    |e|
  }

  lemma EmptyCellsNone(m: GameMap, points: set<Point>)
    ensures EmptyCells(m, points) == {} <==> forall p :: p in points && p in m.cells ==> m.cells[p].status != EMPTY
  {
    var e := EmptyCells(m, points);
    if e != {} {
      var p :| p in e;
      assert p in points && p in m.cells && m.cells[p].status == EMPTY;
    } else {
      forall p | p in points && p in m.cells
        ensures m.cells[p].status != EMPTY
      {
        assert p !in e;
      }
    }
  }

  lemma {:induction false} SubsetCard<T>(a: set<T>, b: set<T>)
    requires a <= b
    ensures |a| <= |b|
    decreases |b|
  {
    if a != {} {
      var x :| x in a;
      SubsetCard(a - {x}, b - {x});
    }
  }

  /** The six commands the search tries, in order. */
  const SearchCommands: seq<Command> := [TURN_CW, TURN_CCW, MOVE_UP, MOVE_RIGHT, MOVE_LEFT, MOVE_DOWN]

  /** `apply` on robot 0, with a failure (including a world without robots,
      whose index lookup throws) turned into `None`. */
  function TryApply(s: Simulator, c: Command): Option<Simulator>
  {
    if |s.robots| == 0 then None
    else match Apply(s, 0, c, false)
      case Ok(s2) => Some(s2)
      case Err(_) => None
  }

  function NeighborsFrom(node: SimAndCommand, cmds: seq<Command>): seq<SimAndCommand>
  {
    if cmds == [] then []
    else
      var rest := NeighborsFrom(node, cmds[1..]);
      match TryApply(node.sim, cmds[0])
      case Some(s2) => [SimAndCommand(s2, cmds[0], node.points)] + rest
      case None => rest
  }

  /** `neighbors`: one successor per search command that robot 0 may
      legally perform, in command order, each carrying the points along. */
  function Neighbors(node: SimAndCommand): seq<SimAndCommand>
  {
    NeighborsFrom(node, SearchCommands)
  }

  /** `tryEx { apply }` succeeds exactly for a legal command of robot 0. */
  lemma TryApplySpec(s: Simulator, c: Command)
    ensures TryApply(s, c).Some? <==> |s.robots| > 0 && Legal(s, 0, c)
    ensures TryApply(s, c).Some? ==> TryApply(s, c).value == Apply(s, 0, c, false).value
  {
    if |s.robots| > 0 {
      ApplyFailsIff(s, 0, c);
    }
  }

  lemma {:induction false} NeighborsFromSpec(node: SimAndCommand, cmds: seq<Command>)
    ensures forall n :: n in NeighborsFrom(node, cmds) ==>
      n.command in cmds && TryApply(node.sim, n.command) == Some(n.sim) && n.points == node.points
    ensures forall c :: c in cmds && TryApply(node.sim, c).Some? ==>
      exists n :: n in NeighborsFrom(node, cmds) && n.command == c
    ensures |NeighborsFrom(node, cmds)| <= |cmds|
    ensures |node.sim.robots| == 0 ==> NeighborsFrom(node, cmds) == []
  {
    if cmds != [] {
      NeighborsFromSpec(node, cmds[1..]);
      var rest := NeighborsFrom(node, cmds[1..]);
      forall c | c in cmds && TryApply(node.sim, c).Some?
        ensures exists n :: n in NeighborsFrom(node, cmds) && n.command == c
      {
        if c == cmds[0] {
          var n := SimAndCommand(TryApply(node.sim, c).value, c, node.points);
          assert NeighborsFrom(node, cmds) == [n] + rest;
          assert n in NeighborsFrom(node, cmds);
        } else {
          assert c in cmds[1..];
          var n :| n in rest && n.command == c;
          assert n in NeighborsFrom(node, cmds);
        }
      }
    }
  }

  /** The successors are exactly the legal robot-0 moves among the six
      search commands, each with the world its `apply` returns (by
      `TryApplySpec`), and a world without robots has none. */
  lemma NeighborsSpec(node: SimAndCommand)
    ensures forall n :: n in Neighbors(node) ==>
      (&& n.command in SearchCommands && |node.sim.robots| > 0 && Legal(node.sim, 0, n.command)
       && Some(n.sim) == TryApply(node.sim, n.command) && n.points == node.points)
    ensures forall c :: c in SearchCommands && |node.sim.robots| > 0 && Legal(node.sim, 0, c) ==>
      exists n :: n in Neighbors(node) && n.command == c
    ensures |node.sim.robots| == 0 ==> Neighbors(node) == []
    ensures |Neighbors(node)| <= 6
  {
    NeighborsFromSpec(node, SearchCommands);
    forall c | c in SearchCommands
      ensures TryApply(node.sim, c).Some? <==> |node.sim.robots| > 0 && Legal(node.sim, 0, c)
    {
      TryApplySpec(node.sim, c);
    }
  }
}
