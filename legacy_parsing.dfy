/** The first task reader of the repository, kept beside the newer one:
    the same line format, but the booster letters are only `B`, `F`, `L`
    and `X`, read by the enum's `valueOf`, shapes come wrapped in `Map`
    and `Obstacle` records, and the `Task` has no name. Reading the fields
    is the same code, so the model reuses the newer reader's functions. */
module LegacyParsing {
  import opened Wrappers
  import opened Maps
  import opened Text
  import Parsing

  /** The four booster kinds the first reader knew. */
  datatype LegacyKind = B | F | L | X

  datatype Map = Map(points: seq<Point>)

  datatype Obstacle = Obstacle(points: Map)

  /** The source names the first field `map`, a keyword here. */
  datatype Task = Task(area: Map, initial: Point, obstacles: seq<Obstacle>, boosters: seq<Parsing.Booster<LegacyKind>>)

  /** `BoosterType.valueOf`: the constant with exactly that name, otherwise
      an IllegalArgumentException. */
  function ValueOf(s: string): (r: Result<LegacyKind, ParseError>)
    ensures r.Err? <==> s !in {"B", "F", "L", "X"}
    ensures r.Err? ==> r.error == UnknownName(s)
  {
    if s == "B" then Ok(B)
    else if s == "F" then Ok(F)
    else if s == "L" then Ok(L)
    else if s == "X" then Ok(X)
    else Err(UnknownName(s))
  }

  /** The constant's name, what `valueOf` reads. */
  function Name(k: LegacyKind): string
  {
    match k
    case B => "B"
    case F => "F"
    case L => "L"
    case X => "X"
  }

  lemma ValueOfName()
    ensures Parsing.LetterFor(ValueOf, Name)
  {
    forall k: LegacyKind
      ensures |Name(k)| == 1 && ValueOf(Name(k)) == Ok(k)
      ensures !IsWhitespace(Name(k)[0]) && Name(k)[0] != ';' && Name(k)[0] != '#'
    {
    }
  }

  function Obstacles(obs: seq<seq<Point>>): (r: seq<Obstacle>)
    ensures |r| == |obs| && forall i :: 0 <= i < |obs| ==> r[i] == Obstacle(Map(obs[i]))
  {
    seq(|obs|, i requires 0 <= i < |obs| => Obstacle(Map(obs[i])))
  }

  /** `parseFile(data)`: the four `#`-separated fields read in order, each
      shape wrapped. */
  function ParseFile(data: string): (r: Result<Task, ParseError>)
    ensures |SplitOn(data, "#")| < 4 ==> r == Err(IndexOutOfBounds(|SplitOn(data, "#")|, |SplitOn(data, "#")|))
    ensures r.Ok? <==> Parsing.ParseParts(data, ValueOf).Ok?
    ensures r.Ok? ==> r.value.area.points == Parsing.ParseParts(data, ValueOf).value.outline
    ensures r.Ok? ==> r.value.initial == Parsing.ParseParts(data, ValueOf).value.initial
  {
    match Parsing.ParseParts(data, ValueOf)
    case Err(e) => Err(e)
    case Ok(p) => Ok(Task(Map(p.outline), p.initial, Obstacles(p.obstacles), p.boosters))
  }

  /** Reading a printed task gives it back, its shapes wrapped. */
  lemma ParseFileText(p: Parsing.Parts<LegacyKind>)
    requires Parsing.WellFormedParts(p)
    ensures ParseFile(Parsing.PartsText(p, Name)) == Ok(Task(Map(p.outline), p.initial, Obstacles(p.obstacles), p.boosters))
  {
    ValueOfName();
    Parsing.ParsePartsText(p, ValueOf, Name);
  }

  /** A booster item whose letter is not a constant's name fails with
      that name once its point has been read, here the cloning letter `C`
      that the newer reader accepts. */
  lemma CloningItemUnknown(pt: Point)
    requires Parsing.IsInt32Point(pt)
    ensures Parsing.ParseBooster("C" + Parsing.PointText(pt), ValueOf) == Err(UnknownName("C"))
  {
    var d := "C" + Parsing.PointText(pt);
    assert d[1..] == Parsing.PointText(pt) && d[0] == 'C';
    Parsing.ParsePointText(pt);
    assert [d[0]] == "C";
  }

  /** So a booster list holding such an item fails as a whole. */
  lemma CloningUnknown(pt: Point)
    requires Parsing.IsInt32Point(pt)
    ensures Parsing.ParseBoosters("C" + Parsing.PointText(pt), ValueOf) == Err(UnknownName("C"))
  {
    var b := Parsing.PointText(pt);
    var d := "C" + b;
    Parsing.PointTextChars(pt);
    Parsing.LetterText('C', b);
    assert d == ['C'] + b;
    NoOccursWithoutHead(d, ";");
    SplitOnNone(d, ";");
    Parsing.NotBlank(d);
    Parsing.ParseBoostersNonBlank(d, ValueOf);
    CloningItemUnknown(pt);
  }
}
