/** The map generator's parameter line: eleven comma-separated numbers,
    then the points a path must visit and the points a wall must cover,
    each list written `(x,y),(x,y),…`, the three fields separated by `#`. */
module GenParameters {
  import opened Wrappers
  import opened Maps
  import opened Text
  import Parsing

  datatype Parameters = Parameters(
    blockNum: int,
    epochNum: int,
    mapSize: int,
    verticesMin: int,
    verticesMax: int,
    manipulatorsNumber: int,
    fastWheelsNumber: int,
    drillsNumber: int,
    teleportsNumber: int,
    cloningBoostersNumber: int,
    spawnPointsNumber: int,
    pathsPoints: set<Point>,
    wallsPoints: set<Point>)

  /** The eleven numbers in declaration order. */
  function Numbers(p: Parameters): (r: seq<int>)
    ensures |r| == 11
  {
    [p.blockNum, p.epochNum, p.mapSize, p.verticesMin, p.verticesMax, p.manipulatorsNumber,
     p.fastWheelsNumber, p.drillsNumber, p.teleportsNumber, p.cloningBoostersNumber, p.spawnPointsNumber]
  }

  /** `toSet()`: the points of a list, duplicates merged. */
  function SetOf(ps: seq<Point>): set<Point>
  {
    set p | p in ps
  }

  /** The record filled from indices 0 to 10 of the numbers and the two
      point lists made sets. */
  function Build(ns: seq<int>, paths: seq<Point>, walls: seq<Point>): (r: Parameters)
    requires |ns| >= 11
    ensures Numbers(r) == ns[..11]
    ensures r.pathsPoints == SetOf(paths) && r.wallsPoints == SetOf(walls)
  {
    var r := Parameters(ns[0], ns[1], ns[2], ns[3], ns[4], ns[5], ns[6], ns[7], ns[8], ns[9], ns[10], SetOf(paths), SetOf(walls));
    assert forall i :: 0 <= i < 11 ==> Numbers(r)[i] == ns[i];
    r
  }

  /** `it.split(",").map { it.toInt() }`, with no trimming. */
  function ReadInts(s: string): Result<seq<int>, ParseError>
  {
    ParseAll(SplitOn(s, ","), ParseInt)
  }

  /** The destructuring `(v0, v1) -> Point(v0, v1)`: a list too short
      fails at the first missing index, extra numbers are ignored. */
  function PairPoint(ns: seq<int>): (r: Result<Point, ParseError>)
    ensures r.Ok? <==> |ns| >= 2
    ensures r.Err? ==> r.error == IndexOutOfBounds(|ns|, |ns|)
  {
    if |ns| < 2 then Err(IndexOutOfBounds(|ns|, |ns|)) else Ok(Point(ns[0], ns[1]))
  }

  /** A point list: surrounding parentheses removed, split on `),(`, every
      piece read as numbers first, then every number list made a point. */
  function ReadPoints(s: string): (r: Result<seq<Point>, ParseError>)
    ensures r.Ok? ==> |r.value| == |SplitOn(RemoveSurrounding(s, "(", ")"), "),(")|
  {
    match ParseAll(SplitOn(RemoveSurrounding(s, "(", ")"), "),("), ReadInts)
    case Err(e) => Err(e)
    case Ok(lists) => ParseAll(lists, PairPoint)
  }

  /** The three fields, read numbers, paths, walls; only then are the
      eleven numbers taken by index, so a short number list fails at its
      length. */
  function ReadFields(numbers: string, paths: string, walls: string): (r: Result<Parameters, ParseError>)
    ensures r.Ok? <==> ReadInts(numbers).Ok? && |ReadInts(numbers).value| >= 11 && ReadPoints(paths).Ok? && ReadPoints(walls).Ok?
    ensures r.Ok? ==> Numbers(r.value) == ReadInts(numbers).value[..11]
    ensures r.Ok? ==> r.value.pathsPoints == SetOf(ReadPoints(paths).value) && r.value.wallsPoints == SetOf(ReadPoints(walls).value)
    ensures ReadInts(numbers).Ok? && ReadPoints(paths).Ok? && ReadPoints(walls).Ok? && |ReadInts(numbers).value| < 11 ==>
      r == Err(IndexOutOfBounds(|ReadInts(numbers).value|, |ReadInts(numbers).value|))
  {
    match ReadInts(numbers)
    case Err(e) => Err(e)
    case Ok(ns) =>
      match ReadPoints(paths)
      case Err(e) => Err(e)
      case Ok(ps) =>
        match ReadPoints(walls)
        case Err(e) => Err(e)
        case Ok(ws) =>
          if |ns| < 11 then Err(IndexOutOfBounds(|ns|, |ns|))
          else Ok(Build(ns, ps, ws))
  }

  /** `Parameters.read`: the destructuring of fewer than three `#` fields
      fails at the first missing one; later fields are ignored. */
  function Read(text: string): (r: Result<Parameters, ParseError>)
    ensures |SplitOn(text, "#")| < 3 ==> r == Err(IndexOutOfBounds(|SplitOn(text, "#")|, |SplitOn(text, "#")|))
  {
    var f := SplitOn(text, "#");
    if |f| < 3 then Err(IndexOutOfBounds(|f|, |f|)) else ReadFields(f[0], f[1], f[2])
  }

  /** Fields after the third do not change what is read. */
  lemma ReadIgnoresExtra(text: string, extra: string)
    requires |SplitOn(text, "#")| >= 3
    ensures Read(text + "#" + extra) == Read(text)
  {
    SplitOnAppend(text, '#', extra);
    assert text + "#" + extra == text + ['#'] + extra;
  }

  // ----- the printed line -----

  function ShowInts(ns: seq<int>): (r: seq<string>)
    ensures |r| == |ns| && forall i :: 0 <= i < |ns| ==> r[i] == ShowInt(ns[i])
  {
    seq(|ns|, i requires 0 <= i < |ns| => ShowInt(ns[i]))
  }

  /** A parameter line with the numbers and the two point lists printed. */
  function ParametersText(ns: seq<int>, paths: seq<Point>, walls: seq<Point>): string
    requires |ns| >= 1 && |paths| >= 1 && |walls| >= 1
  {
    JoinWith(ShowInts(ns), ",") + "#" + Parsing.ShapeText(paths) + "#" + Parsing.ShapeText(walls)
  }

  /** Printed numbers read back, and hold no `#`. */
  lemma NumbersRead(ns: seq<int>)
    requires |ns| >= 1 && forall i :: 0 <= i < |ns| ==> IsInt32(ns[i])
    ensures ReadInts(JoinWith(ShowInts(ns), ",")) == Ok(ns)
    ensures '#' !in JoinWith(ShowInts(ns), ",")
  {
    var ts := ShowInts(ns);
    forall i | 0 <= i < |ns|
      ensures ',' !in ts[i] && '#' !in ts[i] && ParseInt(ts[i]) == Ok(ns[i])
    {
      ShowIntChars(ns[i]);
      ParseShowInt(ns[i]);
    }
    SplitOnJoinChar(ts, ',');
    ParseAllOk(ts, ParseInt, ns);
    JoinWithLacks(ts, ",", '#');
  }

  /** One printed core `x,y` reads back as the pair of its numbers. */
  lemma CoreRead(p: Point)
    requires Parsing.IsInt32Point(p)
    ensures ReadInts(Parsing.Core(p)) == Ok([p.x, p.y])
  {
    var a, b := ShowInt(p.x), ShowInt(p.y);
    assert SplitOn(Parsing.Core(p), ",") == [a, b] by {
      ShowIntChars(p.x);
      ShowIntChars(p.y);
      Parsing.SplitPair(a, b);
    }
    assert ParseAll([a, b], ParseInt) == Ok([p.x, p.y]) by {
      ParseShowInt(p.x);
      ParseShowInt(p.y);
      ParseAllOk([a, b], ParseInt, [p.x, p.y]);
    }
  }

  function Pairs(ps: seq<Point>): (r: seq<seq<int>>)
    ensures |r| == |ps| && forall i :: 0 <= i < |ps| ==> r[i] == [ps[i].x, ps[i].y]
  {
    seq(|ps|, i requires 0 <= i < |ps| => [ps[i].x, ps[i].y])
  }

  /** The cores of a printed shape, split back out of it. */
  lemma CoresSplit(ps: seq<Point>)
    requires |ps| >= 1
    ensures SplitOn(RemoveSurrounding(Parsing.ShapeText(ps), "(", ")"), "),(") == Parsing.Texts(ps, Parsing.Core)
  {
    var cores := Parsing.Texts(ps, Parsing.Core);
    Parsing.ShapeTextCores(ps);
    RemoveSurroundingOf("(", JoinWith(cores, "),("), ")");
    forall i | 0 <= i < |ps|
      ensures ')' !in cores[i]
    {
      Parsing.CoreChars(ps[i]);
    }
    SplitOnJoinFree(cores, "),(");
  }

  /** A printed point list reads back. */
  lemma PointsRead(ps: seq<Point>)
    requires |ps| >= 1 && forall i :: 0 <= i < |ps| ==> Parsing.IsInt32Point(ps[i])
    ensures ReadPoints(Parsing.ShapeText(ps)) == Ok(ps)
  {
    var cores := Parsing.Texts(ps, Parsing.Core);
    CoresSplit(ps);
    forall i | 0 <= i < |ps|
      ensures ReadInts(cores[i]) == Ok(Pairs(ps)[i]) && PairPoint(Pairs(ps)[i]) == Ok(ps[i])
    {
      CoreRead(ps[i]);
    }
    ParseAllOk(cores, ReadInts, Pairs(ps));
    ParseAllOk(Pairs(ps), PairPoint, ps);
  }

  lemma Regroup3(a: string, b: string, c: string)
    ensures a + "#" + b + "#" + c == a + "#" + (b + "#" + c)
  {
  }

  /** Three `#`-free fields joined by `#` split back into themselves. */
  lemma SplitThree(a: string, b: string, c: string)
    requires '#' !in a && '#' !in b && '#' !in c
    ensures SplitOn(a + "#" + b + "#" + c, "#") == [a, b, c]
  {
    NoOccursWithoutHead(c, "#");
    SplitOnNone(c, "#");
    SplitOnStep(b, "#", c);
    SplitOnStep(a, "#", b + "#" + c);
    Regroup3(a, b, c);
  }

  /** The three printed fields are free of `#` and read back. */
  lemma FieldsRead(ns: seq<int>, paths: seq<Point>, walls: seq<Point>)
    requires |ns| >= 1 && forall i :: 0 <= i < |ns| ==> IsInt32(ns[i])
    requires |paths| >= 1 && forall i :: 0 <= i < |paths| ==> Parsing.IsInt32Point(paths[i])
    requires |walls| >= 1 && forall i :: 0 <= i < |walls| ==> Parsing.IsInt32Point(walls[i])
    ensures SplitOn(ParametersText(ns, paths, walls), "#") == [JoinWith(ShowInts(ns), ","), Parsing.ShapeText(paths), Parsing.ShapeText(walls)]
    ensures ReadInts(JoinWith(ShowInts(ns), ",")) == Ok(ns)
    ensures ReadPoints(Parsing.ShapeText(paths)) == Ok(paths) && ReadPoints(Parsing.ShapeText(walls)) == Ok(walls)
  {
    NumbersRead(ns);
    PointsRead(paths);
    PointsRead(walls);
    Parsing.ShapeTextChars(paths);
    Parsing.ShapeTextChars(walls);
    SplitThree(JoinWith(ShowInts(ns), ","), Parsing.ShapeText(paths), Parsing.ShapeText(walls));
  }

  /** Reading a printed line gives back its first eleven numbers and the
      two point lists as sets, duplicates merged. */
  lemma ReadText(ns: seq<int>, paths: seq<Point>, walls: seq<Point>)
    requires |ns| >= 11 && forall i :: 0 <= i < |ns| ==> IsInt32(ns[i])
    requires |paths| >= 1 && forall i :: 0 <= i < |paths| ==> Parsing.IsInt32Point(paths[i])
    requires |walls| >= 1 && forall i :: 0 <= i < |walls| ==> Parsing.IsInt32Point(walls[i])
    ensures Read(ParametersText(ns, paths, walls)).Ok?
    ensures Numbers(Read(ParametersText(ns, paths, walls)).value) == ns[..11]
    ensures Read(ParametersText(ns, paths, walls)).value.pathsPoints == SetOf(paths)
    ensures Read(ParametersText(ns, paths, walls)).value.wallsPoints == SetOf(walls)
  {
    FieldsRead(ns, paths, walls);
  }

  /** With fewer than eleven numbers the line fails at the first missing
      index, after both point lists have been read. */
  lemma ReadTooFewNumbers(ns: seq<int>, paths: seq<Point>, walls: seq<Point>)
    requires 1 <= |ns| < 11 && forall i :: 0 <= i < |ns| ==> IsInt32(ns[i])
    requires |paths| >= 1 && forall i :: 0 <= i < |paths| ==> Parsing.IsInt32Point(paths[i])
    requires |walls| >= 1 && forall i :: 0 <= i < |walls| ==> Parsing.IsInt32Point(walls[i])
    ensures Read(ParametersText(ns, paths, walls)) == Err(IndexOutOfBounds(|ns|, |ns|))
  {
    FieldsRead(ns, paths, walls);
  }

  lemma ShortPieces()
    ensures SplitOn(RemoveSurrounding("(1),(2,3)", "(", ")"), "),(") == ["1", "2,3"]
  {
    RemoveSurroundingOf("(", "1),(2,3", ")");
    assert "(" + "1),(2,3" + ")" == "(1),(2,3)";
    assert "1),(2,3" == "1" + "),(" + "2,3";
    SplitOnStep("1", "),(", "2,3");
    NoOccursWithoutHead("2,3", "),(");
    SplitOnNone("2,3", "),(");
  }

  lemma ShortNumbers()
    ensures ReadInts("1") == Ok([1]) && ReadInts("2,3") == Ok([2, 3])
  {
    NoOccursWithoutHead("1", ",");
    SplitOnNone("1", ",");
    Parsing.SplitPair("2", "3");
    assert "2" + "," + "3" == "2,3";
    ParseShowInt(1);
    ParseShowInt(2);
    ParseShowInt(3);
    ParseAllOk(["1"], ParseInt, [1]);
    ParseAllOk(["2", "3"], ParseInt, [2, 3]);
  }

  /** A point list holding a single number fails at index 1. */
  lemma ReadPointsShort()
    ensures ReadPoints("(1),(2,3)") == Err(IndexOutOfBounds(1, 1))
  {
    var lists: seq<seq<int>> := [[1], [2, 3]];
    assert ParseAll(["1", "2,3"], ReadInts) == Ok(lists) by {
      ShortNumbers();
      ParseAllOk(["1", "2,3"], ReadInts, lists);
    }
    assert ParseAll(lists, PairPoint) == Err(IndexOutOfBounds(1, 1)) by {
      assert PairPoint(lists[0]) == Err(IndexOutOfBounds(1, 1));
      ParseAllFirst(lists, PairPoint);
    }
    ShortPieces();
  }
}
