/** The string operations the description parsers are built from, as the
    Kotlin/JVM library defines them: `trim`, `split` on a delimiter,
    `removeSurrounding`, and `Integer.valueOf`/`toInt` with its 32-bit range
    check, together with the printing functions they invert. */
module Text {
  import opened Wrappers

  /** The exceptions a parser can throw: a NumberFormatException, an
      IndexOutOfBoundsException from a list or string lookup, and an
      IllegalArgumentException or MapException for an unknown name. */
  datatype ParseError =
    | NumberFormat(text: string)
    | IndexOutOfBounds(index: nat, size: nat)
    | UnknownName(text: string)

  // ----- whitespace -----

  /** Kotlin's `Char.isWhitespace`: Java whitespace or a Unicode space,
      line or paragraph separator. */
  predicate IsWhitespace(c: char)
  {
    || ('\t' <= c <= '\r') || ('\U{001C}' <= c <= ' ')
    || c == '\U{00A0}' || c == '\U{1680}' || ('\U{2000}' <= c <= '\U{200A}')
    || c == '\U{2028}' || c == '\U{2029}' || c == '\U{202F}' || c == '\U{205F}' || c == '\U{3000}'
  }

  predicate AllWhitespace(s: string)
  {
    forall i :: 0 <= i < |s| ==> IsWhitespace(s[i])
  }

  /** The first index at or after `k` that holds no whitespace. */
  function SkipStart(s: string, k: nat): (r: nat)
    requires k <= |s|
    ensures k <= r <= |s| && (forall i :: k <= i < r ==> IsWhitespace(s[i]))
    ensures r < |s| ==> !IsWhitespace(s[r])
    decreases |s| - k
  {
    if k < |s| && IsWhitespace(s[k]) then SkipStart(s, k + 1) else k
  }

  /** The end, at or before `j` and not before `lo`, of the text with its
      trailing whitespace dropped. */
  function SkipEnd(s: string, lo: nat, j: nat): (r: nat)
    requires lo <= j <= |s|
    ensures lo <= r <= j && (forall i :: r <= i < j ==> IsWhitespace(s[i]))
    ensures r > lo ==> !IsWhitespace(s[r - 1])
  {
    if j > lo && IsWhitespace(s[j - 1]) then SkipEnd(s, lo, j - 1) else j
  }

  /** `String.trim`: the text without its leading and trailing whitespace. */
  function Trim(s: string): string
  {
    var i := SkipStart(s, 0);
    s[i..SkipEnd(s, i, |s|)]
  }

  /** `trim` removes exactly whitespace from both ends and leaves a result
      that neither starts nor ends with whitespace. */
  lemma TrimSpec(s: string)
    ensures exists i, j :: 0 <= i <= j <= |s| && Trim(s) == s[i..j] && AllWhitespace(s[..i]) && AllWhitespace(s[j..])
    ensures Trim(s) != [] ==> !IsWhitespace(Trim(s)[0]) && !IsWhitespace(Trim(s)[|Trim(s)| - 1])
  {
    var i := SkipStart(s, 0);
    var j := SkipEnd(s, i, |s|);
    assert AllWhitespace(s[..i]) && AllWhitespace(s[j..]);
  }

  /** `trim().isEmpty()`, the blank test of the parsers, holds exactly for
      all-whitespace text. */
  lemma TrimEmptyIff(s: string)
    ensures Trim(s) == [] <==> AllWhitespace(s)
  {
    var i := SkipStart(s, 0);
    var j := SkipEnd(s, i, |s|);
    if Trim(s) == [] {
      assert i == j;
    }
  }

  /** Whitespace around text that does not itself start or end with
      whitespace is exactly what `trim` removes. */
  lemma TrimPadded(a: string, x: string, b: string)
    requires AllWhitespace(a) && AllWhitespace(b)
    requires x != [] && !IsWhitespace(x[0]) && !IsWhitespace(x[|x| - 1])
    ensures Trim(a + x + b) == x
  {
    var s := a + x + b;
    SkipStartPadded(s, 0, |a|);
    SkipEndPadded(s, |a|, |a| + |x|, |s|);
    assert s[|a|..|a| + |x|] == x;
  }

  lemma {:induction false} SkipStartPadded(s: string, k: nat, n: nat)
    requires k <= n < |s| && (forall i :: k <= i < n ==> IsWhitespace(s[i])) && !IsWhitespace(s[n])
    ensures SkipStart(s, k) == n
    decreases n - k
  {
    if k < n {
      SkipStartPadded(s, k + 1, n);
    }
  }

  lemma {:induction false} SkipEndPadded(s: string, lo: nat, n: nat, j: nat)
    requires lo < n <= j <= |s| && (forall i :: n <= i < j ==> IsWhitespace(s[i])) && !IsWhitespace(s[n - 1])
    ensures SkipEnd(s, lo, j) == n
    decreases j
  {
    if n < j {
      SkipEndPadded(s, lo, n, j - 1);
    }
  }

  // ----- splitting -----

  /** `String.split(delimiter)`: the pieces between the occurrences of the
      delimiter, found left to right without overlap; empty pieces are
      kept, so there is always one piece more than there are delimiters. */
  function SplitOn(s: string, d: string): (r: seq<string>)
    requires d != []
    ensures |r| >= 1
    decreases |s|
  {
    if d <= s then [[]] + SplitOn(s[|d|..], d)
    else if s == [] then [[]]
    else
      var rest := SplitOn(s[1..], d);
      [[s[0]] + rest[0]] + rest[1..]
  }

  /** `joinToString(delimiter)` of a non-empty list. */
  function JoinWith(ps: seq<string>, d: string): string
    requires |ps| >= 1
  {
    if |ps| == 1 then ps[0] else ps[0] + d + JoinWith(ps[1..], d)
  }

  /** Whether `d` occurs in `s`. */
  predicate Occurs(s: string, d: string)
    decreases |s|
  {
    d <= s || (s != [] && Occurs(s[1..], d))
  }

  lemma JoinWithCons(p: string, ps: seq<string>, d: string)
    requires |ps| >= 1
    ensures JoinWith([p] + ps, d) == p + d + JoinWith(ps, d)
  {
    assert ([p] + ps)[1..] == ps;
  }

  lemma JoinWithHead(c: char, ps: seq<string>, d: string)
    requires |ps| >= 1
    ensures JoinWith([[c] + ps[0]] + ps[1..], d) == [c] + JoinWith(ps, d)
  {
    if |ps| > 1 {
      JoinWithCons([c] + ps[0], ps[1..], d);
      assert ps == [ps[0]] + ps[1..];
      JoinWithCons(ps[0], ps[1..], d);
    }
  }

  /** Joining the pieces with the delimiter gives back the text. */
  lemma {:induction false} JoinSplitOn(s: string, d: string)
    requires d != []
    ensures JoinWith(SplitOn(s, d), d) == s
    decreases |s|
  {
    if d <= s {
      JoinSplitOn(s[|d|..], d);
      JoinWithCons([], SplitOn(s[|d|..], d), d);
      assert s == [] + d + s[|d|..];
    } else if s != [] {
      JoinSplitOn(s[1..], d);
      JoinWithHead(s[0], SplitOn(s[1..], d), d);
      assert s == [s[0]] + s[1..];
    }
  }

  /** Text in which the delimiter does not occur is a single piece. */
  lemma {:induction false} SplitOnNone(s: string, d: string)
    requires d != [] && !Occurs(s, d)
    ensures SplitOn(s, d) == [s]
    decreases |s|
  {
    if s != [] {
      SplitOnNone(s[1..], d);
      assert s == [s[0]] + s[1..];
    }
  }

  /** A piece that holds no delimiter start is split off whole. */
  lemma {:induction false} SplitOnStep(p: string, d: string, rest: string)
    requires d != [] && d[0] !in p
    ensures SplitOn(p + d + rest, d) == [p] + SplitOn(rest, d)
    decreases |p|
  {
    if p == [] {
      assert p + d + rest == d + rest;
      assert (d + rest)[|d|..] == rest;
    } else {
      var s := p + d + rest;
      assert !(d <= s) by {
        assert s[0] == p[0] && p[0] != d[0];
      }
      assert s[1..] == p[1..] + d + rest;
      SplitOnStep(p[1..], d, rest);
      assert [s[0]] + p[1..] == p;
    }
  }

  /** Splitting a join gives back the pieces when only the last piece may
      contain the delimiter's first character and the delimiter does not
      occur in it. */
  lemma {:induction false} SplitOnJoin(ps: seq<string>, d: string)
    requires d != [] && |ps| >= 1
    requires forall i :: 0 <= i < |ps| - 1 ==> d[0] !in ps[i]
    requires !Occurs(ps[|ps| - 1], d)
    ensures SplitOn(JoinWith(ps, d), d) == ps
    decreases |ps|
  {
    if |ps| == 1 {
      SplitOnNone(ps[0], d);
    } else {
      SplitOnJoin(ps[1..], d);
      SplitOnStep(ps[0], d, JoinWith(ps[1..], d));
    }
  }

  /** Joining pieces on a separator whose first character none of them
      contains, and splitting again, gives the pieces back. */
  lemma SplitOnJoinFree(ps: seq<string>, d: string)
    requires d != [] && |ps| >= 1 && forall i :: 0 <= i < |ps| ==> d[0] !in ps[i]
    ensures SplitOn(JoinWith(ps, d), d) == ps
  {
    NoOccursWithoutHead(ps[|ps| - 1], d);
    SplitOnJoin(ps, d);
  }

  lemma SplitOnJoinChar(ps: seq<string>, c: char)
    requires |ps| >= 1 && forall i :: 0 <= i < |ps| ==> c !in ps[i]
    ensures SplitOn(JoinWith(ps, [c]), [c]) == ps
  {
    SplitOnJoinFree(ps, [c]);
  }

  /** A character in none of the pieces nor in the separator is not in
      their join. */
  lemma {:induction false} JoinWithLacks(ps: seq<string>, d: string, c: char)
    requires |ps| >= 1 && c !in d && forall i :: 0 <= i < |ps| ==> c !in ps[i]
    ensures c !in JoinWith(ps, d)
    decreases |ps|
  {
    if |ps| > 1 {
      JoinWithLacks(ps[1..], d, c);
    }
  }

  /** A delimiter cannot occur in text missing its first character. */
  lemma {:induction false} NoOccursWithoutHead(s: string, d: string)
    requires d != [] && d[0] !in s
    ensures !Occurs(s, d)
    decreases |s|
  {
    if s != [] {
      NoOccursWithoutHead(s[1..], d);
    }
  }

  /** Nor in text that has that character only as its last one, when the
      delimiter is longer than one character. */
  lemma {:induction false} NoOccursHeadAtEnd(s: string, d: string)
    requires |d| >= 2 && s != [] && d[0] !in s[..|s| - 1]
    ensures !Occurs(s, d)
    decreases |s|
  {
    if |s| > 1 {
      assert s[1..][..|s[1..]| - 1] == s[1..|s| - 1];
      NoOccursHeadAtEnd(s[1..], d);
      assert s[0] == s[..|s| - 1][0];
    }
  }

  /** A one-character delimiter splits a concatenation around it piecewise:
      extra fields after the ones a parser reads leave those untouched. */
  lemma {:induction false} SplitOnAppend(a: string, c: char, b: string)
    ensures SplitOn(a + [c] + b, [c]) == SplitOn(a, [c]) + SplitOn(b, [c])
    decreases |a|
  {
    if a == [] {
      assert [] + [c] + b == [c] + b;
      assert ([c] + b)[1..] == b;
    } else if a[0] == c {
      assert [c] <= a;
      assert (a + [c] + b)[1..] == a[1..] + [c] + b;
      SplitOnAppend(a[1..], c, b);
    } else {
      assert (a + [c] + b)[1..] == a[1..] + [c] + b;
      SplitOnAppend(a[1..], c, b);
      var ra := SplitOn(a[1..], [c]);
      assert SplitOn(a, [c]) == [[a[0]] + ra[0]] + ra[1..];
    }
  }

  /** `removeSurrounding(prefix, suffix)`: both removed when the text is
      long enough and has both, otherwise the text unchanged. */
  function RemoveSurrounding(s: string, prefix: string, suffix: string): (r: string)
    ensures r == s || s == prefix + r + suffix
  {
    if |s| >= |prefix| + |suffix| && prefix <= s && s[|s| - |suffix|..] == suffix then
      assert s == s[..|prefix|] + s[|prefix|..|s| - |suffix|] + s[|s| - |suffix|..];
      s[|prefix|..|s| - |suffix|]
    else s
  }

  lemma RemoveSurroundingOf(prefix: string, x: string, suffix: string)
    ensures RemoveSurrounding(prefix + x + suffix, prefix, suffix) == x
  {
    var s := prefix + x + suffix;
    assert prefix <= s && s[|s| - |suffix|..] == suffix;
    assert s[|prefix|..|s| - |suffix|] == x;
  }

  // ----- integers -----

  const MinInt: int := -0x8000_0000
  const MaxInt: int := 0x7fff_ffff

  predicate IsInt32(n: int)
  {
    MinInt <= n <= MaxInt
  }

  predicate IsDigit(c: char)
  {
    '0' <= c <= '9'
  }

  predicate AllDigits(s: string)
  {
    forall i :: 0 <= i < |s| ==> IsDigit(s[i])
  }

  /** The value of a decimal numeral. */
  function DigitsValue(s: string): nat
    requires AllDigits(s)
  {
    if s == [] then 0 else DigitsValue(s[..|s| - 1]) * 10 + (s[|s| - 1] as int - '0' as int)
  }

  /** `Integer.valueOf`/`String.toInt`: an optional sign and at least one
      decimal digit, within the 32-bit range; anything else throws. */
  function ParseInt(s: string): (r: Result<int, ParseError>)
    ensures r.Ok? ==> IsInt32(r.value)
    ensures r.Err? ==> r.error == NumberFormat(s)
  {
    var body := if s != [] && (s[0] == '-' || s[0] == '+') then s[1..] else s;
    if body == [] || !AllDigits(body) then Err(NumberFormat(s))
    else
      var v: int := if s[0] == '-' then -(DigitsValue(body) as int) else DigitsValue(body);
      if IsInt32(v) then Ok(v) else Err(NumberFormat(s))
  }

  function DigitChar(d: nat): char
    requires d < 10
  {
    ('0' as int + d) as char
  }

  /** `Int.toString` of a non-negative number: decimal, no leading zeros. */
  function ShowNat(n: nat): (r: string)
    ensures r != [] && AllDigits(r)
  {
    if n < 10 then [DigitChar(n)] else ShowNat(n / 10) + [DigitChar(n % 10)]
  }

  /** `Int.toString`. */
  function ShowInt(n: int): (r: string)
    ensures r != []
  {
    if n < 0 then "-" + ShowNat(-n) else ShowNat(n)
  }

  lemma {:induction false} ShowNatValue(n: nat)
    ensures DigitsValue(ShowNat(n)) == n
  {
    if n >= 10 {
      ShowNatValue(n / 10);
      var s := ShowNat(n / 10) + [DigitChar(n % 10)];
      assert s[..|s| - 1] == ShowNat(n / 10);
    }
  }

  lemma ParseDigits(s: string)
    requires s != [] && AllDigits(s) && IsInt32(DigitsValue(s))
    ensures ParseInt(s) == Ok(DigitsValue(s))
  {
    assert IsDigit(s[0]);
  }

  lemma ParseNegativeDigits(s: string)
    requires s != [] && AllDigits(s) && IsInt32(-(DigitsValue(s) as int))
    ensures ParseInt("-" + s) == Ok(-(DigitsValue(s) as int))
  {
    assert ("-" + s)[1..] == s;
  }

  /** Reading a printed 32-bit integer gives it back. */
  lemma ParseShowInt(n: int)
    requires IsInt32(n)
    ensures ParseInt(ShowInt(n)) == Ok(n)
  {
    if n < 0 {
      var s := ShowNat(-n);
      ShowNatValue(-n);
      ParseNegativeDigits(s);
      assert ShowInt(n) == "-" + s;
    } else {
      var s := ShowNat(n);
      ShowNatValue(n);
      ParseDigits(s);
      assert ShowInt(n) == s;
    }
  }

  /** A printed integer holds no whitespace, parenthesis or separator at
      its ends, and no separator at all. */
  lemma ShowIntChars(n: int)
    ensures !IsWhitespace(ShowInt(n)[0]) && !IsWhitespace(ShowInt(n)[|ShowInt(n)| - 1])
    ensures forall c :: c in ShowInt(n) ==> c == '-' || IsDigit(c)
    ensures ',' !in ShowInt(n) && '(' !in ShowInt(n) && ')' !in ShowInt(n)
    ensures ';' !in ShowInt(n) && '#' !in ShowInt(n)
  {
  }

  /** Whitespace-only text holds no other character. */
  lemma WhitespaceOnly(s: string, c: char)
    requires AllWhitespace(s) && !IsWhitespace(c)
    ensures c !in s
  {
  }

  // ----- lists of results -----

  /** `map { f(it) }` over a list where `f` may throw: the first failure in
      list order, or every result. */
  function ParseAll<T, U>(xs: seq<T>, f: T -> Result<U, ParseError>): (r: Result<seq<U>, ParseError>)
    ensures r.Ok? ==> |r.value| == |xs| && forall i :: 0 <= i < |xs| ==> f(xs[i]) == Ok(r.value[i])
    ensures r.Err? ==> exists i :: 0 <= i < |xs| && f(xs[i]) == Err(r.error) && forall j :: 0 <= j < i ==> f(xs[j]).Ok?
  {
    if xs == [] then Ok([])
    else match f(xs[0])
      case Err(e) => Err(e)
      case Ok(u) =>
        match ParseAll(xs[1..], f)
        case Err(e) =>
          var i :| 0 <= i < |xs[1..]| && f(xs[1..][i]) == Err(e) && forall j :: 0 <= j < i ==> f(xs[1..][j]).Ok?;
          assert f(xs[i + 1]) == Err(e);
          Err(e)
        case Ok(us) => Ok([u] + us)
  }

  /** A list whose first element fails fails with that element's error. */
  lemma ParseAllFirst<T, U>(xs: seq<T>, f: T -> Result<U, ParseError>)
    requires xs != [] && f(xs[0]).Err?
    ensures ParseAll(xs, f) == Err(f(xs[0]).error)
  {
  }

  /** When every element succeeds, so does the whole list. */
  lemma {:induction false} ParseAllOk<T, U>(xs: seq<T>, f: T -> Result<U, ParseError>, us: seq<U>)
    requires |us| == |xs| && forall i :: 0 <= i < |xs| ==> f(xs[i]) == Ok(us[i])
    ensures ParseAll(xs, f) == Ok(us)
  {
    if xs != [] {
      ParseAllOk(xs[1..], f, us[1..]);
      assert us == [us[0]] + us[1..];
    }
  }
}
