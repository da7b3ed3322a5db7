/** The problem-description reader of parse/Parsing.kt: a `#`-separated line
    holding the map outline, the start point, the `;`-separated obstacles
    and the `;`-separated boosters, each point written `(x,y)`. The printing
    functions give the format the reader inverts. */
module Parsing {
  import opened Wrappers
  import opened Maps
  import opened Text

  /** A booster on the map, over the booster kinds of the reader at hand. */
  datatype Booster<K> = Booster(coords: Point, kind: K)

  /** The four parts of a task line. */
  datatype Parts<K> = Parts(outline: seq<Point>, initial: Point, obstacles: seq<seq<Point>>, boosters: seq<Booster<K>>)

  /** `Task`: a named task. */
  datatype Task = Task(name: string, outline: seq<Point>, initial: Point, obstacles: seq<seq<Point>>, boosters: seq<Booster<BoosterType>>)

  // ----- points -----

  /** `replace('(', ' ').replace(')', ' ')`. */
  function Unparen(s: string): string
  {
    seq(|s|, i requires 0 <= i < |s| => if s[i] == '(' || s[i] == ')' then ' ' else s[i])
  }

  /** One field of a point: trimmed, then read by `Integer.valueOf`. */
  function FieldInt(f: string): Result<int, ParseError>
  {
    ParseInt(Trim(f))
  }

  /** `parsePoint`: parentheses become spaces, the text is split on commas,
      every field is trimmed and read as an integer, and the first and the
      last of them are the coordinates. */
  function ParsePoint(s: string): (r: Result<Point, ParseError>)
    ensures r.Ok? ==> IsInt32(r.value.x) && IsInt32(r.value.y)
    ensures r.Err? ==> r.error.NumberFormat?
  {
    match ParseAll(SplitOn(Unparen(s), ","), FieldInt)
    case Err(e) => Err(e)
    case Ok(ns) => Ok(Point(ns[0], ns[|ns| - 1]))
  }

  /** The printed form of a point, `(x,y)`. */
  function PointText(p: Point): string
  {
    "(" + Core(p) + ")"
  }

  /** A point without its parentheses, `x,y`. */
  function Core(p: Point): string
  {
    ShowInt(p.x) + "," + ShowInt(p.y)
  }

  predicate IsInt32Point(p: Point)
  {
    IsInt32(p.x) && IsInt32(p.y)
  }

  /** Only parentheses and whitespace, the padding `parsePoint` ignores. */
  predicate Padding(s: string)
  {
    forall i :: 0 <= i < |s| ==> s[i] == '(' || s[i] == ')' || IsWhitespace(s[i])
  }

  /** The characters of printed numbers, points and shapes. */
  predicate NumeralChar(c: char)
  {
    IsDigit(c) || c == '-' || c == ',' || c == '(' || c == ')'
  }

  predicate Numerals(s: string)
  {
    forall i :: 0 <= i < |s| ==> NumeralChar(s[i])
  }

  lemma UnparenAppend(a: string, b: string)
    ensures Unparen(a + b) == Unparen(a) + Unparen(b)
  {
  }

  lemma UnparenCore(a: string, p: Point, b: string)
    requires Padding(a) && Padding(b)
    ensures Unparen(a + Core(p) + b) == (Unparen(a) + ShowInt(p.x)) + "," + (ShowInt(p.y) + Unparen(b))
    ensures AllWhitespace(Unparen(a)) && AllWhitespace(Unparen(b))
  {
    var x, y := ShowInt(p.x), ShowInt(p.y);
    ShowIntChars(p.x);
    ShowIntChars(p.y);
    assert Unparen(x) == x && Unparen(y) == y;
    assert a + Core(p) + b == a + x + "," + y + b;
    UnparenAppend(a + x + "," + y, b);
    UnparenAppend(a + x + ",", y);
    UnparenAppend(a + x, ",");
    UnparenAppend(a, x);
  }

  /** Text with one comma splits into the two sides. */
  lemma SplitPair(l: string, r: string)
    requires ',' !in l && ',' !in r
    ensures SplitOn(l + "," + r, ",") == [l, r]
  {
    SplitOnStep(l, ",", r);
    NoOccursWithoutHead(r, ",");
    SplitOnNone(r, ",");
  }

  lemma FieldsRead(ua: string, p: Point, ub: string)
    requires AllWhitespace(ua) && AllWhitespace(ub) && IsInt32Point(p)
    ensures FieldInt(ua + ShowInt(p.x)) == Ok(p.x) && FieldInt(ShowInt(p.y) + ub) == Ok(p.y)
    ensures ',' !in ua + ShowInt(p.x) && ',' !in ShowInt(p.y) + ub
  {
    var x, y := ShowInt(p.x), ShowInt(p.y);
    ShowIntChars(p.x);
    ShowIntChars(p.y);
    WhitespaceOnly(ua, ',');
    WhitespaceOnly(ub, ',');
    TrimPadded(ua, x, []);
    assert ua + x + [] == ua + x;
    TrimPadded([], y, ub);
    assert [] + y + ub == y + ub;
    ParseShowInt(p.x);
    ParseShowInt(p.y);
  }

  /** `parsePoint` of `x,y` with any parentheses or whitespace around it
      reads `(x,y)`: this covers the printed point and the pieces that
      splitting a shape on `),(` leaves. */
  lemma ParsePointPadded(a: string, p: Point, b: string)
    requires IsInt32Point(p) && Padding(a) && Padding(b)
    ensures ParsePoint(a + Core(p) + b) == Ok(p)
  {
    var l, r := Unparen(a) + ShowInt(p.x), ShowInt(p.y) + Unparen(b);
    UnparenCore(a, p, b);
    FieldsRead(Unparen(a), p, Unparen(b));
    SplitPair(l, r);
    ParseAllOk([l, r], FieldInt, [p.x, p.y]);
  }

  /** Reading a printed point gives it back. */
  lemma ParsePointText(p: Point)
    requires IsInt32Point(p)
    ensures ParsePoint(PointText(p)) == Ok(p)
  {
    ParsePointPadded("(", p, ")");
  }

  lemma FirstLastFields()
    ensures Unparen("(1,2,3)") == " 1" + "," + ("2" + "," + "3 ")
    ensures SplitOn(" 1" + "," + ("2" + "," + "3 "), ",") == [" 1", "2", "3 "]
  {
    SplitOnStep("2", ",", "3 ");
    NoOccursWithoutHead("3 ", ",");
    SplitOnNone("3 ", ",");
    SplitOnStep(" 1", ",", "2" + "," + "3 ");
  }

  lemma FirstLastValues()
    ensures FieldInt(" 1") == Ok(1) && FieldInt("2") == Ok(2) && FieldInt("3 ") == Ok(3)
  {
    TrimPadded(" ", "1", "");
    assert " " + "1" + "" == " 1";
    TrimPadded("", "2", "");
    assert "" + "2" + "" == "2";
    TrimPadded("", "3", " ");
    assert "" + "3" + " " == "3 ";
    ParseShowInt(1);
    ParseShowInt(2);
    ParseShowInt(3);
  }

  /** `parsePoint` keeps the first and last fields and ignores the rest. */
  lemma ParsePointFirstLast()
    ensures ParsePoint("(1,2,3)") == Ok(Point(1, 3))
  {
    FirstLastFields();
    FirstLastValues();
    ParseAllOk([" 1", "2", "3 "], FieldInt, [1, 2, 3]);
  }

  // ----- shapes -----

  /** `parseMap`: the text split on `),(`, one point per piece. */
  function ParseMap(s: string): (r: Result<seq<Point>, ParseError>)
    ensures r.Ok? ==> |r.value| == |SplitOn(s, "),(")| >= 1
  {
    ParseAll(SplitOn(s, "),("), ParsePoint)
  }

  function Texts(ps: seq<Point>, f: Point -> string): (r: seq<string>)
    ensures |r| == |ps| && forall i :: 0 <= i < |ps| ==> r[i] == f(ps[i])
  {
    seq(|ps|, i requires 0 <= i < |ps| => f(ps[i]))
  }

  /** The printed form of a shape, `(x1,y1),(x2,y2),…`. */
  function ShapeText(ps: seq<Point>): string
    requires |ps| >= 1
  {
    JoinWith(Texts(ps, PointText), ",")
  }

  lemma TextsUnfold(ps: seq<Point>, f: Point -> string, d: string)
    requires |ps| > 1
    ensures JoinWith(Texts(ps, f), d) == f(ps[0]) + d + JoinWith(Texts(ps[1..], f), d)
  {
    assert Texts(ps, f)[1..] == Texts(ps[1..], f);
  }

  lemma Regroup(c0: string, rest: string)
    ensures ("(" + c0 + ")") + "," + ("(" + rest + ")") == "(" + (c0 + "),(" + rest) + ")"
  {
  }

  /** A printed shape is its points' cores joined by `),(` inside one pair
      of parentheses. */
  lemma {:induction false} ShapeTextCores(ps: seq<Point>)
    requires |ps| >= 1
    ensures ShapeText(ps) == "(" + JoinWith(Texts(ps, Core), "),(") + ")"
    decreases |ps|
  {
    if |ps| > 1 {
      ShapeTextCores(ps[1..]);
      TextsUnfold(ps, PointText, ",");
      TextsUnfold(ps, Core, "),(");
      Regroup(Core(ps[0]), JoinWith(Texts(ps[1..], Core), "),("));
    }
  }

  /** `a` before the first piece and `b` after the last. */
  function PadEnds(ps: seq<string>, a: string, b: string): (r: seq<string>)
    requires |ps| >= 1
    ensures |r| == |ps|
  {
    var q := ps[0 := a + ps[0]];
    q[|q| - 1 := q[|q| - 1] + b]
  }

  lemma {:induction false} JoinWithSuffix(ps: seq<string>, d: string, b: string)
    requires |ps| >= 1
    ensures JoinWith(ps[|ps| - 1 := ps[|ps| - 1] + b], d) == JoinWith(ps, d) + b
    decreases |ps|
  {
    if |ps| > 1 {
      var q := ps[|ps| - 1 := ps[|ps| - 1] + b];
      JoinWithSuffix(ps[1..], d, b);
      assert q[1..] == ps[1..][|ps| - 2 := ps[|ps| - 1] + b];
    }
  }

  lemma JoinPadEnds(ps: seq<string>, d: string, a: string, b: string)
    requires |ps| >= 1
    ensures JoinWith(PadEnds(ps, a, b), d) == a + JoinWith(ps, d) + b
  {
    var q := ps[0 := a + ps[0]];
    if |ps| > 1 {
      assert q[1..] == ps[1..];
    }
    assert JoinWith(q, d) == a + JoinWith(ps, d);
    JoinWithSuffix(q, d, b);
  }

  lemma CoreChars(p: Point)
    ensures Numerals(Core(p)) && ')' !in Core(p) && '(' !in Core(p)
  {
    ShowIntChars(p.x);
    ShowIntChars(p.y);
  }

  /** The pieces `),(` splits a printed shape into. */
  /** Piece `i` of `PadEnds`. */
  lemma PadEndsAt(ps: seq<string>, a: string, b: string, i: nat)
    requires |ps| >= 1 && i < |ps|
    ensures PadEnds(ps, a, b)[i] == (if i == 0 then a else "") + ps[i] + (if i == |ps| - 1 then b else "")
  {
  }

  /** Cores padded with the outer parentheses meet the conditions under
      which splitting on `),(` gives them back. */
  lemma PaddedCores(cores: seq<string>)
    requires |cores| >= 1 && forall i :: 0 <= i < |cores| ==> ')' !in cores[i]
    ensures forall i :: 0 <= i < |cores| - 1 ==> ')' !in PadEnds(cores, "(", ")")[i]
    ensures !Occurs(PadEnds(cores, "(", ")")[|cores| - 1], "),(")
  {
    var pieces := PadEnds(cores, "(", ")");
    forall i | 0 <= i < |cores| - 1
      ensures ')' !in pieces[i]
    {
      PadEndsAt(cores, "(", ")", i);
    }
    var n := |cores|;
    var first := if n == 1 then "(" else "";
    PadEndsAt(cores, "(", ")", n - 1);
    var last := pieces[n - 1];
    assert last == (first + cores[n - 1]) + ")";
    assert last[..|last| - 1] == first + cores[n - 1];
    NoOccursHeadAtEnd(last, "),(");
  }

  lemma SplitShapeText(ps: seq<Point>)
    requires |ps| >= 1
    ensures SplitOn(ShapeText(ps), "),(") == PadEnds(Texts(ps, Core), "(", ")")
  {
    var cores := Texts(ps, Core);
    ShapeTextCores(ps);
    JoinPadEnds(cores, "),(", "(", ")");
    forall i | 0 <= i < |ps|
      ensures ')' !in cores[i]
    {
      CoreChars(ps[i]);
    }
    PaddedCores(cores);
    SplitOnJoin(PadEnds(cores, "(", ")"), "),(");
  }

  /** Reading a printed shape gives it back. */
  lemma ParseShapeText(ps: seq<Point>)
    requires |ps| >= 1 && forall i :: 0 <= i < |ps| ==> IsInt32Point(ps[i])
    ensures ParseMap(ShapeText(ps)) == Ok(ps)
  {
    SplitShapeText(ps);
    var pieces := PadEnds(Texts(ps, Core), "(", ")");
    forall i | 0 <= i < |ps|
      ensures ParsePoint(pieces[i]) == Ok(ps[i])
    {
      var a := if i == 0 then "(" else "";
      var b := if i == |ps| - 1 then ")" else "";
      PadEndsAt(Texts(ps, Core), "(", ")", i);
      ParsePointPadded(a, ps[i], b);
    }
    ParseAllOk(pieces, ParsePoint, ps);
  }

  lemma {:induction false} JoinWithNumerals(ps: seq<string>, d: string)
    requires |ps| >= 1 && Numerals(d) && forall i :: 0 <= i < |ps| ==> Numerals(ps[i])
    ensures Numerals(JoinWith(ps, d))
    decreases |ps|
  {
    if |ps| > 1 {
      JoinWithNumerals(ps[1..], d);
    }
  }

  /** A printed shape starts with `(` and is made of numeral characters. */
  lemma ShapeTextChars(ps: seq<Point>)
    requires |ps| >= 1
    ensures Numerals(ShapeText(ps)) && ShapeText(ps)[0] == '('
    ensures ';' !in ShapeText(ps) && '#' !in ShapeText(ps)
  {
    var ts := Texts(ps, PointText);
    forall i | 0 <= i < |ps|
      ensures Numerals(ts[i])
    {
      CoreChars(ps[i]);
    }
    JoinWithNumerals(ts, ",");
    ShapeTextCores(ps);
    NumeralsLack(ShapeText(ps));
  }

  lemma NumeralsLack(s: string)
    requires Numerals(s)
    ensures ';' !in s && '#' !in s
  {
    forall i | 0 <= i < |s|
      ensures s[i] != ';' && s[i] != '#'
    {
      assert NumeralChar(s[i]);
    }
  }

  // ----- obstacles -----

  /** `parseObstacles`: nothing for blank text, otherwise one shape per
      `;`-separated field. */
  function ParseObstacles(s: string): (r: Result<seq<seq<Point>>, ParseError>)
    ensures AllWhitespace(s) ==> r == Ok([])
    ensures !AllWhitespace(s) && r.Ok? ==> |r.value| == |SplitOn(s, ";")|
  {
    TrimEmptyIff(s);
    if Trim(s) == [] then Ok([]) else ParseAll(SplitOn(s, ";"), ParseMap)
  }

  predicate WellFormedShape(ps: seq<Point>)
  {
    |ps| >= 1 && forall i :: 0 <= i < |ps| ==> IsInt32Point(ps[i])
  }

  function ShapeTexts(obs: seq<seq<Point>>): (r: seq<string>)
    requires forall i :: 0 <= i < |obs| ==> |obs[i]| >= 1
    ensures |r| == |obs| && forall i :: 0 <= i < |obs| ==> r[i] == ShapeText(obs[i])
  {
    seq(|obs|, i requires 0 <= i < |obs| => ShapeText(obs[i]))
  }

  /** The printed obstacle list: empty, or the shapes joined by `;`. */
  function ObstaclesText(obs: seq<seq<Point>>): string
    requires forall i :: 0 <= i < |obs| ==> |obs[i]| >= 1
  {
    if obs == [] then "" else JoinWith(ShapeTexts(obs), ";")
  }

  /** A join starts with its first piece. */
  lemma JoinWithLeading(ps: seq<string>, d: string)
    requires |ps| >= 1 && ps[0] != []
    ensures JoinWith(ps, d) != [] && JoinWith(ps, d)[0] == ps[0][0]
  {
  }

  /** A first character that is not whitespace makes text non-blank. */
  lemma NotBlank(s: string)
    requires s != [] && !IsWhitespace(s[0])
    ensures !AllWhitespace(s)
  {
  }

  /** What the obstacle and task readers need of one printed shape. */
  lemma ShapeTextFacts(ps: seq<Point>)
    requires WellFormedShape(ps)
    ensures ';' !in ShapeText(ps) && '#' !in ShapeText(ps)
    ensures ShapeText(ps)[0] == '('
    ensures ParseMap(ShapeText(ps)) == Ok(ps)
  {
    ShapeTextChars(ps);
    ParseShapeText(ps);
  }

  /** Reading a printed obstacle list gives it back, the empty list
      included. */
  lemma ParseObstaclesText(obs: seq<seq<Point>>)
    requires forall i :: 0 <= i < |obs| ==> |obs[i]| >= 1 && WellFormedShape(obs[i])
    ensures ParseObstacles(ObstaclesText(obs)) == Ok(obs)
  {
    if obs != [] {
      var ts := ShapeTexts(obs);
      forall i | 0 <= i < |obs|
        ensures ';' !in ts[i] && ParseMap(ts[i]) == Ok(obs[i])
      {
        ShapeTextFacts(obs[i]);
      }
      SplitOnJoinChar(ts, ';');
      ShapeTextFacts(obs[0]);
      JoinWithLeading(ts, ";");
      NotBlank(JoinWith(ts, ";"));
      ParseAllOk(ts, ParseMap, obs);
    }
  }

  // ----- boosters -----

  /** `it.drop(1)`. */
  function Drop1(s: string): string
  {
    if s == [] then [] else s[1..]
  }

  /** One trimmed booster item: its point is read from the text after the
      first character, then the first character names the kind (a missing
      one would be an index error, but `parsePoint` of the empty text has
      already failed by then). */
  function ParseBooster<K>(item: string, kindOf: string -> Result<K, ParseError>): (r: Result<Booster<K>, ParseError>)
    ensures r.Ok? ==> item != [] && Ok(r.value.coords) == ParsePoint(item[1..]) && Ok(r.value.kind) == kindOf([item[0]])
  {
    match ParsePoint(Drop1(item))
    case Err(e) => Err(e)
    case Ok(p) =>
      if item == [] then Err(IndexOutOfBounds(0, 0))
      else match kindOf([item[0]])
        case Err(e) => Err(e)
        case Ok(k) => Ok(Booster(p, k))
  }

  /** One item of a booster list: trimmed, then read. */
  function BoosterItem<K>(kindOf: string -> Result<K, ParseError>): string -> Result<Booster<K>, ParseError>
  {
    item => ParseBooster(Trim(item), kindOf)
  }

  /** `parseBoosters`: nothing for blank text, otherwise one booster per
      `;`-separated item. */
  function ParseBoosters<K>(s: string, kindOf: string -> Result<K, ParseError>): (r: Result<seq<Booster<K>>, ParseError>)
    ensures AllWhitespace(s) ==> r == Ok([])
  {
    TrimEmptyIff(s);
    if Trim(s) == [] then Ok([]) else ParseAll(SplitOn(s, ";"), BoosterItem(kindOf))
  }

  /** `BoosterType.from` with its MapException. */
  function KindFrom(s: string): Result<BoosterType, ParseError>
  {
    match BoosterFrom(s)
    case Ok(b) => Ok(b)
    case Err(_) => Err(UnknownName(s))
  }

  /** A kind letter that the reader maps back to its kind and that cannot
      be mistaken for whitespace or a separator. */
  ghost predicate LetterFor<K(!new)>(kindOf: string -> Result<K, ParseError>, letter: K -> string)
  {
    forall k :: |letter(k)| == 1 && kindOf(letter(k)) == Ok(k)
      && !IsWhitespace(letter(k)[0]) && letter(k)[0] != ';' && letter(k)[0] != '#'
  }

  lemma KindFromLetters()
    ensures LetterFor(KindFrom, BoosterAscii)
  {
    forall k: BoosterType
      ensures |BoosterAscii(k)| == 1 && KindFrom(BoosterAscii(k)) == Ok(k)
    {
      BoosterFromAscii(k);
    }
  }

  function BoosterText<K>(b: Booster<K>, letter: K -> string): string
  {
    letter(b.kind) + PointText(b.coords)
  }

  function BoosterTexts<K>(bs: seq<Booster<K>>, letter: K -> string): (r: seq<string>)
    ensures |r| == |bs| && forall i :: 0 <= i < |bs| ==> r[i] == BoosterText(bs[i], letter)
  {
    seq(|bs|, i requires 0 <= i < |bs| => BoosterText(bs[i], letter))
  }

  /** The printed booster list: empty, or the items joined by `;`. */
  function BoostersText<K>(bs: seq<Booster<K>>, letter: K -> string): string
  {
    if bs == [] then "" else JoinWith(BoosterTexts(bs, letter), ";")
  }

  /** A printed point holds no separator and ends with `)`. */
  lemma PointTextChars(p: Point)
    ensures ';' !in PointText(p) && '#' !in PointText(p)
    ensures PointText(p)[|PointText(p)| - 1] == ')'
  {
    var t := PointText(p);
    CoreChars(p);
    forall i | 0 <= i < |t|
      ensures NumeralChar(t[i])
    {
      if 0 < i < |t| - 1 {
        assert t[i] == Core(p)[i - 1];
      }
    }
    NumeralsLack(t);
  }

  /** A kind letter in front of a printed point survives trimming and
      splits off again. */
  lemma LetterText(c: char, s: string)
    requires !IsWhitespace(c) && c != ';' && c != '#'
    requires s != [] && s[|s| - 1] == ')' && ';' !in s && '#' !in s
    ensures Trim([c] + s) == [c] + s && ([c] + s)[1..] == s && ([c] + s)[0] == c
    ensures ';' !in [c] + s && '#' !in [c] + s
  {
    TrimPadded([], [c] + s, []);
    assert [] + ([c] + s) + [] == [c] + s;
  }

  /** One printed booster reads back. */
  lemma ParseBoosterText<K(!new)>(b: Booster<K>, kindOf: string -> Result<K, ParseError>, letter: K -> string)
    requires LetterFor(kindOf, letter) && IsInt32Point(b.coords)
    ensures ParseBooster(Trim(BoosterText(b, letter)), kindOf) == Ok(b)
    ensures ';' !in BoosterText(b, letter) && '#' !in BoosterText(b, letter)
  {
    var l := letter(b.kind);
    assert |l| == 1 && kindOf(l) == Ok(b.kind);
    assert l == [l[0]];
    PointTextChars(b.coords);
    LetterText(l[0], PointText(b.coords));
    ParsePointText(b.coords);
  }

  /** Reading a printed booster list gives it back, the empty list
      included. */
  lemma ParseBoostersText<K(!new)>(bs: seq<Booster<K>>, kindOf: string -> Result<K, ParseError>, letter: K -> string)
    requires LetterFor(kindOf, letter) && forall i :: 0 <= i < |bs| ==> IsInt32Point(bs[i].coords)
    ensures ParseBoosters(BoostersText(bs, letter), kindOf) == Ok(bs)
    ensures '#' !in BoostersText(bs, letter)
  {
    if bs != [] {
      var ts := BoosterTexts(bs, letter);
      BoosterTextsRead(bs, kindOf, letter);
      SplitOnJoinChar(ts, ';');
      JoinWithLeading(ts, ";");
      NotBlank(JoinWith(ts, ";"));
      ParseBoostersNonBlank(JoinWith(ts, ";"), kindOf);
      ParseAllOk(ts, BoosterItem(kindOf), bs);
      JoinWithLacks(ts, ";", '#');
    }
  }

  lemma ParseBoostersNonBlank<K>(s: string, kindOf: string -> Result<K, ParseError>)
    requires !AllWhitespace(s)
    ensures ParseBoosters(s, kindOf) == ParseAll(SplitOn(s, ";"), BoosterItem(kindOf))
  {
    TrimEmptyIff(s);
  }

  /** Every printed booster item is free of separators and reads back,
      and the first one does not start with whitespace. */
  lemma BoosterTextsRead<K(!new)>(bs: seq<Booster<K>>, kindOf: string -> Result<K, ParseError>, letter: K -> string)
    requires LetterFor(kindOf, letter) && forall i :: 0 <= i < |bs| ==> IsInt32Point(bs[i].coords)
    requires bs != []
    ensures var ts := BoosterTexts(bs, letter);
      && (forall i :: 0 <= i < |bs| ==> ';' !in ts[i] && '#' !in ts[i] && BoosterItem(kindOf)(ts[i]) == Ok(bs[i]))
      && ts[0] != [] && !IsWhitespace(ts[0][0])
  {
    var ts := BoosterTexts(bs, letter);
    forall i | 0 <= i < |bs|
      ensures ';' !in ts[i] && '#' !in ts[i] && BoosterItem(kindOf)(ts[i]) == Ok(bs[i])
    {
      ParseBoosterText(bs[i], kindOf, letter);
    }
    BoosterTextLeads(bs[0], letter);
  }

  lemma BoosterTextLeads<K(!new)>(b: Booster<K>, letter: K -> string)
    requires forall k :: |letter(k)| == 1 && !IsWhitespace(letter(k)[0])
    ensures BoosterText(b, letter) != [] && !IsWhitespace(BoosterText(b, letter)[0])
  {
    assert |letter(b.kind)| == 1;
  }

  // ----- the `Task` line -----

  /** The four fields of a task line, read in order map, start,
      obstacles, boosters, so that the first failure is the one reported. */
  function ParseFields<K>(f0: string, f1: string, f2: string, f3: string, kindOf: string -> Result<K, ParseError>): (r: Result<Parts<K>, ParseError>)
    ensures r.Ok? <==> ParseMap(f0).Ok? && ParsePoint(f1).Ok? && ParseObstacles(f2).Ok? && ParseBoosters(f3, kindOf).Ok?
    ensures r.Ok? ==> r.value == Parts(ParseMap(f0).value, ParsePoint(f1).value, ParseObstacles(f2).value, ParseBoosters(f3, kindOf).value)
  {
    match ParseMap(f0)
    case Err(e) => Err(e)
    case Ok(outline) =>
      match ParsePoint(f1)
      case Err(e) => Err(e)
      case Ok(initial) =>
        match ParseObstacles(f2)
        case Err(e) => Err(e)
        case Ok(obstacles) =>
          match ParseBoosters(f3, kindOf)
          case Err(e) => Err(e)
          case Ok(boosters) => Ok(Parts(outline, initial, obstacles, boosters))
  }

  /** A task line split on `#`: the destructuring of fewer than four fields
      fails at the first missing one, and any field after the fourth is
      ignored. */
  function ParseParts<K>(data: string, kindOf: string -> Result<K, ParseError>): (r: Result<Parts<K>, ParseError>)
    ensures |SplitOn(data, "#")| < 4 ==> r == Err(IndexOutOfBounds(|SplitOn(data, "#")|, |SplitOn(data, "#")|))
  {
    var f := SplitOn(data, "#");
    if |f| < 4 then Err(IndexOutOfBounds(|f|, |f|))
    else ParseFields(f[0], f[1], f[2], f[3], kindOf)
  }

  /** `parseFile(name, data)`. */
  function ParseFile(name: string, data: string): (r: Result<Task, ParseError>)
    ensures |SplitOn(data, "#")| < 4 ==> r.Err? && r.error.IndexOutOfBounds?
    ensures r.Ok? ==> r.value.name == name
  {
    match ParseParts(data, KindFrom)
    case Err(e) => Err(e)
    case Ok(p) => Ok(Task(name, p.outline, p.initial, p.obstacles, p.boosters))
  }

  /** Fields after the fourth do not change what is read. */
  lemma ParsePartsIgnoresExtra<K>(data: string, extra: string, kindOf: string -> Result<K, ParseError>)
    requires |SplitOn(data, "#")| >= 4
    ensures ParseParts(data + "#" + extra, kindOf) == ParseParts(data, kindOf)
  {
    SplitOnAppend(data, '#', extra);
    assert data + "#" + extra == data + ['#'] + extra;
  }

  ghost predicate WellFormedParts<K>(p: Parts<K>)
  {
    && WellFormedShape(p.outline) && IsInt32Point(p.initial)
    && (forall i :: 0 <= i < |p.obstacles| ==> |p.obstacles[i]| >= 1 && WellFormedShape(p.obstacles[i]))
    && forall i :: 0 <= i < |p.boosters| ==> IsInt32Point(p.boosters[i].coords)
  }

  /** The printed task line. */
  function PartsText<K>(p: Parts<K>, letter: K -> string): string
    requires WellFormedShape(p.outline) && forall i :: 0 <= i < |p.obstacles| ==> |p.obstacles[i]| >= 1
  {
    ShapeText(p.outline) + "#" + PointText(p.initial) + "#" + ObstaclesText(p.obstacles) + "#" + BoostersText(p.boosters, letter)
  }

  lemma ObstaclesTextNoHash(obs: seq<seq<Point>>)
    requires forall i :: 0 <= i < |obs| ==> |obs[i]| >= 1 && WellFormedShape(obs[i])
    ensures '#' !in ObstaclesText(obs)
  {
    if obs != [] {
      var ts := ShapeTexts(obs);
      forall i | 0 <= i < |obs|
        ensures '#' !in ts[i]
      {
        ShapeTextFacts(obs[i]);
      }
      JoinWithLacks(ts, ";", '#');
    }
  }

  lemma Regroup4(a: string, b: string, c: string, d: string)
    ensures a + "#" + b + "#" + c + "#" + d == a + "#" + (b + "#" + (c + "#" + d))
  {
  }

  /** Four `#`-free fields joined by `#` split back into themselves. */
  lemma SplitFour(a: string, b: string, c: string, d: string)
    requires '#' !in a && '#' !in b && '#' !in c && '#' !in d
    ensures SplitOn(a + "#" + b + "#" + c + "#" + d, "#") == [a, b, c, d]
  {
    NoOccursWithoutHead(d, "#");
    SplitOnNone(d, "#");
    SplitOnStep(c, "#", d);
    SplitOnStep(b, "#", c + "#" + d);
    SplitOnStep(a, "#", b + "#" + (c + "#" + d));
    Regroup4(a, b, c, d);
  }

  /** Each printed field of a task line is free of `#` and reads back. */
  lemma PartsFieldsRead<K(!new)>(p: Parts<K>, kindOf: string -> Result<K, ParseError>, letter: K -> string)
    requires LetterFor(kindOf, letter) && WellFormedParts(p)
    ensures '#' !in ShapeText(p.outline) && ParseMap(ShapeText(p.outline)) == Ok(p.outline)
    ensures '#' !in PointText(p.initial) && ParsePoint(PointText(p.initial)) == Ok(p.initial)
    ensures '#' !in ObstaclesText(p.obstacles) && ParseObstacles(ObstaclesText(p.obstacles)) == Ok(p.obstacles)
    ensures '#' !in BoostersText(p.boosters, letter) && ParseBoosters(BoostersText(p.boosters, letter), kindOf) == Ok(p.boosters)
  {
    ShapeTextFacts(p.outline);
    PointTextChars(p.initial);
    ParsePointText(p.initial);
    ObstaclesTextNoHash(p.obstacles);
    ParseObstaclesText(p.obstacles);
    ParseBoostersText(p.boosters, kindOf, letter);
  }

  /** So the printed fields, read in order, give back the parts. */
  lemma PartsFieldsParse<K(!new)>(p: Parts<K>, kindOf: string -> Result<K, ParseError>, letter: K -> string)
    requires LetterFor(kindOf, letter) && WellFormedParts(p)
    ensures ParseFields(ShapeText(p.outline), PointText(p.initial), ObstaclesText(p.obstacles), BoostersText(p.boosters, letter), kindOf) == Ok(p)
  {
    PartsFieldsRead(p, kindOf, letter);
  }

  /** Reading a printed task line gives back its parts. */
  lemma ParsePartsText<K(!new)>(p: Parts<K>, kindOf: string -> Result<K, ParseError>, letter: K -> string)
    requires LetterFor(kindOf, letter) && WellFormedParts(p)
    ensures ParseParts(PartsText(p, letter), kindOf) == Ok(p)
  {
    var a, b, c, d := ShapeText(p.outline), PointText(p.initial), ObstaclesText(p.obstacles), BoostersText(p.boosters, letter);
    assert '#' !in a && '#' !in b && '#' !in c && '#' !in d by {
      PartsFieldsRead(p, kindOf, letter);
    }
    JoinedFields(a, b, c, d, kindOf);
    PartsFieldsParse(p, kindOf, letter);
  }

  /** A line of four `#`-free fields is read field by field. */
  lemma JoinedFields<K>(a: string, b: string, c: string, d: string, kindOf: string -> Result<K, ParseError>)
    requires '#' !in a && '#' !in b && '#' !in c && '#' !in d
    ensures ParseParts(a + "#" + b + "#" + c + "#" + d, kindOf) == ParseFields(a, b, c, d, kindOf)
  {
    SplitFour(a, b, c, d);
  }

  /** Reading a printed task gives it back under the name it is read
      with. */
  lemma ParseFileText(name: string, p: Parts<BoosterType>)
    requires WellFormedParts(p)
    ensures ParseFile(name, PartsText(p, BoosterAscii)) == Ok(Task(name, p.outline, p.initial, p.obstacles, p.boosters))
  {
    KindFromLetters();
    ParsePartsText(p, KindFrom, BoosterAscii);
  }
}
