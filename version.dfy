/**
 * braulio/version.py: the three-number release version, its canonical text, its
 * lexicographic order, the in-place bump and the choice of the next release.
 */
module Versions {
  import opened Wrappers
  import opened Text

  /** The value of a `Version`: its three numbers. */
  datatype Semver = Semver(major: nat, minor: nat, patch: nat)

  const Zero := Semver(0, 0, 0)

  /** `f'{major}.{minor}.{patch}'` */
  function Format(v: Semver): string {
    NatToString(v.major) + "." + NatToString(v.minor) + "." + NatToString(v.patch)
  }

  // ---------------------------------------------------------------------------
  // validate_version_str

  /** `version_str_pattern` matched against exactly `s`: three canonical numerals joined by dots. */
  predicate IsStrictVersionStr(s: string) {
    var parts := Split(s, '.');
    |parts| == 3
    && IsCanonicalNumeral(parts[0]) && IsCanonicalNumeral(parts[1]) && IsCanonicalNumeral(parts[2])
  }

  /**
   * `validate_version_str`: `re.match` with a pattern ending in `$`, which Python also
   * lets match just before one final newline.
   */
  predicate ValidateVersionStr(s: string) {
    IsStrictVersionStr(s) || (|s| > 0 && s[|s| - 1] == '\n' && IsStrictVersionStr(s[..|s| - 1]))
  }

  // ---------------------------------------------------------------------------
  // Version(string)

  /** What `Version(string)` raises when it cannot read the string. */
  datatype ValueError =
    | Unpack(pieces: nat)             // `major, minor, patch = string.split('.')` without three pieces
    | InvalidLiteral(literal: string) // `int()` of a piece that is not a decimal literal

  /** Digit groups joined by single underscores, as a decimal literal allows. */
  predicate IsDigitGroups(u: string) {
    |u| >= 1 && IsDigit(u[0]) && IsDigit(u[|u| - 1]) && AllDigits(Remove(u, '_')) && SingleUnderscores(u)
  }

  /** No two underscores in a row. */
  predicate SingleUnderscores(u: string) {
    |u| < 2 || (!(u[0] == '_' && u[1] == '_') && SingleUnderscores(u[1..]))
  }

  /** The piece without its leading whitespace. */
  function TrimStart(s: string): string {
    if s != [] && IsSpace(s[0]) then TrimStart(s[1..]) else s
  }

  /** The piece without its trailing whitespace. */
  function TrimEnd(s: string): string {
    if s != [] && IsSpace(s[|s| - 1]) then TrimEnd(s[..|s| - 1]) else s
  }

  /** `int()` strips a piece as `str.strip()` does. */
  lemma {:induction false} TrimIsStrip(s: string)
    ensures TrimEnd(TrimStart(s)) == Strip(s)
  {
    var i := LeadingSpaces(s);
    TrimStartIsSlice(s);
    if i < |s| {
      TrimEndAfterSpaces(s);
    } else {
      TrimEndIsSlice(s[i..]);
    }
  }

  /** With its leading whitespace gone, a piece that is not all whitespace loses exactly its trailing whitespace. */
  lemma {:induction false} TrimEndAfterSpaces(s: string)
    requires LeadingSpaces(s) < |s|
    ensures TrimEnd(s[LeadingSpaces(s)..]) == s[LeadingSpaces(s)..|s| - TrailingSpaces(s)]
  {
    var i := LeadingSpaces(s);
    var x := s[i..];
    var n := TrailingSpaces(s);
    assert i < |s| - n by {
      assert !IsSpace(s[i]);
    }
    TrimEndIsSlice(x);
    TrailingSpacesOfSuffix(s, i);
    assert x[..|x| - n] == s[i..|s| - n];
  }

  /** Dropping a prefix that stops before the trailing whitespace keeps that whitespace. */
  lemma {:induction false} TrailingSpacesOfSuffix(s: string, i: nat)
    requires i < |s| - TrailingSpaces(s)
    ensures TrailingSpaces(s[i..]) == TrailingSpaces(s)
  {
    if IsSpace(s[|s| - 1]) {
      var t := s[..|s| - 1];
      TrailingSpacesOfSuffix(t, i);
      assert s[i..][..|s[i..]| - 1] == t[i..];
    }
  }

  lemma {:induction false} TrimStartIsSlice(s: string)
    ensures TrimStart(s) == s[LeadingSpaces(s)..]
  {
    if s != [] && IsSpace(s[0]) {
      TrimStartIsSlice(s[1..]);
    }
  }

  lemma {:induction false} TrimEndIsSlice(s: string)
    ensures TrimEnd(s) == s[..|s| - TrailingSpaces(s)]
  {
    if s != [] && IsSpace(s[|s| - 1]) {
      TrimEndIsSlice(s[..|s| - 1]);
    }
  }

  /** The literal `int()` reads in a piece: the piece stripped of whitespace and of one leading `+`. */
  function Literal(piece: string): string {
    var t := TrimEnd(TrimStart(piece));
    if |t| >= 1 && t[0] == '+' then t[1..] else t
  }

  /** A piece `int()` reads as a natural number (digits restricted to ASCII). */
  predicate IsNumeral(piece: string) { IsDigitGroups(Literal(piece)) }

  /** `int(piece)`: the digits of the literal without its underscores. */
  function NumeralValue(piece: string): nat
    requires IsNumeral(piece)
  {
    DigitsValue(Remove(Literal(piece), '_'))
  }

  /**
   * `major, minor, patch = string.split('.')` followed by `int()` of each piece, in that
   * order; the `ValueError` Python raises when there are not three pieces or a piece is
   * not a decimal literal.
   */
  function ParseVersion(s: string): (r: Result<Semver, ValueError>)
    ensures r.Ok? <==> |Split(s, '.')| == 3 && forall i :: 0 <= i < 3 ==> IsNumeral(Split(s, '.')[i])
    ensures |Split(s, '.')| != 3 ==> r == Err(Unpack(|Split(s, '.')|))
    ensures var p := Split(s, '.'); |p| == 3 && !IsNumeral(p[0]) ==> r == Err(InvalidLiteral(p[0]))
    ensures var p := Split(s, '.'); |p| == 3 && IsNumeral(p[0]) && !IsNumeral(p[1]) ==> r == Err(InvalidLiteral(p[1]))
    ensures var p := Split(s, '.'); |p| == 3 && IsNumeral(p[0]) && IsNumeral(p[1]) && !IsNumeral(p[2]) ==> r == Err(InvalidLiteral(p[2]))
  {
    var parts := Split(s, '.');
    if |parts| != 3 then Err(Unpack(|parts|))
    else if !IsNumeral(parts[0]) then Err(InvalidLiteral(parts[0]))
    else if !IsNumeral(parts[1]) then Err(InvalidLiteral(parts[1]))
    else if !IsNumeral(parts[2]) then Err(InvalidLiteral(parts[2]))
    else Ok(Semver(NumeralValue(parts[0]), NumeralValue(parts[1]), NumeralValue(parts[2])))
  }

  /** A run of digits with whitespace around it is a literal `int()` reads as its value. */
  lemma {:induction false} DigitsNumeral(l: string, c: string, r: string)
    requires AllSpace(l) && |c| >= 1 && AllDigits(c) && AllSpace(r)
    ensures IsNumeral(l + c + r) && NumeralValue(l + c + r) == DigitsValue(c)
  {
    LiteralOfDigits(l, c, r);
    DigitRunGroups(c);
    LiteralNumeral(l + c + r, c);
  }

  /** `int()` reads `+` followed by digits as the digits' value. */
  lemma {:induction false} SignedNumeral(c: string)
    requires |c| >= 1 && AllDigits(c)
    ensures IsNumeral("+" + c) && NumeralValue("+" + c) == DigitsValue(c)
  {
    SignedLiteral(c);
    DigitRunGroups(c);
    LiteralNumeral("+" + c, c);
  }

  /** The literal of `+` and digits is the digits. */
  lemma {:induction false} SignedLiteral(c: string)
    requires |c| >= 1 && AllDigits(c)
    ensures Literal("+" + c) == c
  {
    var u := "+" + c;
    assert u[|u| - 1] == c[|c| - 1];
    assert u + "" == u;
    TrimEndSpaces(u, "");
    assert u[1..] == c;
  }

  /** A run of digits is digit groups without underscores. */
  lemma {:induction false} DigitRunGroups(c: string)
    requires |c| >= 1 && AllDigits(c)
    ensures IsDigitGroups(c) && Remove(c, '_') == c
  {
    assert '_' !in c;
    NoUnderscores(c);
    RemoveAbsent(c, '_');
  }

  /** A piece whose literal is digit groups is a numeral worth those digits without underscores. */
  lemma {:induction false} LiteralNumeral(piece: string, u: string)
    requires Literal(piece) == u && IsDigitGroups(u)
    ensures IsNumeral(piece) && NumeralValue(piece) == DigitsValue(Remove(u, '_'))
  {
  }

  /** `int()` reads two digit runs joined by an underscore as the value of their digits together. */
  lemma {:induction false} UnderscoreNumeral(a: string, b: string)
    requires |a| >= 1 && AllDigits(a) && |b| >= 1 && AllDigits(b)
    ensures IsNumeral(a + "_" + b) && NumeralValue(a + "_" + b) == DigitsValue(a + b)
  {
    var u := a + "_" + b;
    UnderscoreLiteral(a, b);
    UnderscoreGroups(a, b);
    assert '_' !in a && '_' !in b;
    RemoveBetween(a, b, '_');
    LiteralNumeral(u, u);
  }

  /** Two digit runs joined by an underscore have nothing for `int()` to strip. */
  lemma {:induction false} UnderscoreLiteral(a: string, b: string)
    requires |a| >= 1 && AllDigits(a) && |b| >= 1 && AllDigits(b)
    ensures Literal(a + "_" + b) == a + "_" + b
  {
    var u := a + "_" + b;
    assert u[0] == a[0] && u[|u| - 1] == b[|b| - 1];
    assert u + "" == u;
    TrimEndSpaces(u, "");
  }

  /** Two digit runs joined by an underscore are digit groups. */
  lemma {:induction false} UnderscoreGroups(a: string, b: string)
    requires |a| >= 1 && AllDigits(a) && |b| >= 1 && AllDigits(b)
    ensures IsDigitGroups(a + "_" + b)
  {
    var u := a + "_" + b;
    assert u[0] == a[0] && u[|u| - 1] == b[|b| - 1];
    assert '_' !in a && '_' !in b;
    RemoveBetween(a, b, '_');
    assert AllDigits(a + b) by {
      assert forall i :: 0 <= i < |a + b| ==> (a + b)[i] == if i < |a| then a[i] else b[i - |a|];
    }
    NoUnderscores(b);
    GroupsJoined(a, b);
  }

  lemma {:induction false} GroupsJoined(a: string, b: string)
    requires |a| >= 1 && AllDigits(a) && |b| >= 1 && AllDigits(b) && SingleUnderscores(b)
    ensures SingleUnderscores(a + "_" + b)
  {
    var u := a + "_" + b;
    if |a| == 1 {
      assert u[1..] == "_" + b && u[1..][1..] == b;
    } else {
      assert u[1..] == a[1..] + "_" + b;
      GroupsJoined(a[1..], b);
    }
  }

  lemma {:induction false} NoUnderscores(u: string)
    requires '_' !in u
    ensures SingleUnderscores(u)
  {
    if |u| >= 2 {
      assert '_' !in u[1..];
      NoUnderscores(u[1..]);
    }
  }

  lemma LiteralOfDigits(l: string, c: string, r: string)
    requires AllSpace(l) && |c| >= 1 && AllDigits(c) && AllSpace(r)
    ensures Literal(l + c + r) == c
  {
    assert l + c + r == l + (c + r);
    assert (c + r)[0] == c[0];
    TrimStartSpaces(l, c + r);
    TrimEndSpaces(c, r);
  }

  lemma {:induction false} TrimStartSpaces(l: string, c: string)
    requires AllSpace(l) && |c| >= 1 && !IsSpace(c[0])
    ensures TrimStart(l + c) == c
  {
    if l != [] {
      assert (l + c)[1..] == l[1..] + c;
      TrimStartSpaces(l[1..], c);
    }
  }

  lemma {:induction false} TrimEndSpaces(c: string, r: string)
    requires |c| >= 1 && !IsSpace(c[|c| - 1]) && AllSpace(r)
    ensures TrimEnd(c + r) == c
  {
    if r == [] {
      assert c + r == c;
    } else {
      var u := c + r;
      assert u[|u| - 1] == r[|r| - 1];
      assert u[..|u| - 1] == c + r[..|r| - 1];
      TrimEndSpaces(c, r[..|r| - 1]);
    }
  }

  /** What `Version(string)` accepts: the empty string (falsy, so 0.0.0) or a parsable one. */
  predicate IsVersionArgument(s: string) {
    s == "" || ParseVersion(s).Ok?
  }

  /** The value `Version(s)` ends up with. */
  function ValueOfArgument(s: string): Semver
    requires IsVersionArgument(s)
  {
    if s == "" then Zero else ParseVersion(s).value
  }

  lemma {:induction false} SplitFormat(v: Semver)
    ensures Split(Format(v), '.') == [NatToString(v.major), NatToString(v.minor), NatToString(v.patch)]
  {
    var a, b, c := NatToString(v.major), NatToString(v.minor), NatToString(v.patch);
    assert '.' !in a && '.' !in b && '.' !in c by {
      assert AllDigits(a) && AllDigits(b) && AllDigits(c);
    }
    SplitWithoutSeparator(a, '.');
    SplitWithoutSeparator(b, '.');
    SplitWithoutSeparator(c, '.');
    SplitAround(b, c, '.');
    assert Format(v) == a + ['.'] + (b + ['.'] + c);
    SplitAround(a, b + ['.'] + c, '.');
  }

  /** The canonical text of every version passes `validate_version_str`. */
  lemma FormatIsValid(v: Semver)
    ensures IsStrictVersionStr(Format(v)) && ValidateVersionStr(Format(v))
  {
    SplitFormat(v);
    CanonicalNatToString(v.major);
    CanonicalNatToString(v.minor);
    CanonicalNatToString(v.patch);
  }

  /** Three literals `int()` reads, joined by dots, parse to their values. */
  lemma {:induction false} ParseNumerals(p0: string, p1: string, p2: string)
    requires '.' !in p0 && '.' !in p1 && '.' !in p2
    requires IsNumeral(p0) && IsNumeral(p1) && IsNumeral(p2)
    ensures ParseVersion(p0 + ['.'] + (p1 + ['.'] + p2)) == Ok(Semver(NumeralValue(p0), NumeralValue(p1), NumeralValue(p2)))
  {
    SplitThree(p0, p1, p2, '.');
  }

  /**
   * Three digit runs joined by dots, with whitespace before and after the whole, parse
   * to their values: `int()` strips the whitespace from the first and the last piece.
   */
  lemma {:induction false} ParsePieces(l: string, a: string, b: string, c: string, r: string)
    requires AllSpace(l) && AllSpace(r)
    requires |a| >= 1 && |b| >= 1 && |c| >= 1 && AllDigits(a) && AllDigits(b) && AllDigits(c)
    ensures ParseVersion(l + a + ['.'] + (b + ['.'] + (c + r))) == Ok(Semver(DigitsValue(a), DigitsValue(b), DigitsValue(c)))
  {
    var p0, p2 := l + a, c + r;
    assert IsNumeral(p0) && NumeralValue(p0) == DigitsValue(a) by {
      assert l + a + "" == p0;
      DigitsNumeral(l, a, "");
    }
    assert IsNumeral(b) && NumeralValue(b) == DigitsValue(b) by {
      assert "" + b == b && b + "" == b;
      DigitsNumeral("", b, "");
    }
    assert IsNumeral(p2) && NumeralValue(p2) == DigitsValue(c) by {
      assert "" + c == c;
      DigitsNumeral("", c, r);
    }
    assert '.' !in l && '.' !in a && '.' !in b && '.' !in c && '.' !in r;
    ParseNumerals(p0, b, p2);
    assert l + a + ['.'] + (b + ['.'] + (c + r)) == p0 + ['.'] + (b + ['.'] + p2);
  }

  /** Parsing the canonical text gives the version back. */
  lemma {:induction false} ParseFormat(v: Semver)
    ensures ParseVersion(Format(v)) == Ok(v)
  {
    var a, b, c := NatToString(v.major), NatToString(v.minor), NatToString(v.patch);
    assert Format(v) == "" + a + ['.'] + (b + ['.'] + (c + ""));
    ParsePieces("", a, b, c, "");
    DigitsValueOfNatToString(v.major);
    DigitsValueOfNatToString(v.minor);
    DigitsValueOfNatToString(v.patch);
  }

  /** A string of the strict form is its three pieces joined by dots. */
  lemma {:induction false} StrictPieces(s: string)
    requires IsStrictVersionStr(s)
    ensures var parts := Split(s, '.'); s == parts[0] + ['.'] + (parts[1] + ['.'] + parts[2])
  {
    var parts := Split(s, '.');
    JoinSplit(s, '.');
    assert parts[1..][1..] == [parts[2]];
    assert Join(parts[1..], ".") == parts[1] + "." + parts[2];
    assert Join(parts, ".") == parts[0] + "." + (parts[1] + "." + parts[2]);
  }

  /** A string of the strict form parses, and formatting its value gives it back. */
  lemma {:induction false} FormatParse(s: string)
    requires IsStrictVersionStr(s)
    ensures ParseVersion(s).Ok? && Format(ParseVersion(s).value) == s
  {
    var parts := Split(s, '.');
    var a, b, c := parts[0], parts[1], parts[2];
    StrictPieces(s);
    var v := Semver(DigitsValue(a), DigitsValue(b), DigitsValue(c));
    assert ParseVersion(s) == Ok(v) by {
      assert s == "" + a + ['.'] + (b + ['.'] + (c + ""));
      ParsePieces("", a, b, c, "");
    }
    FormatPieces(a, b, c);
  }

  /** The canonical text of three canonical numerals' values is the numerals joined by dots. */
  lemma {:induction false} FormatPieces(a: string, b: string, c: string)
    requires IsCanonicalNumeral(a) && IsCanonicalNumeral(b) && IsCanonicalNumeral(c)
    ensures Format(Semver(DigitsValue(a), DigitsValue(b), DigitsValue(c))) == a + ['.'] + (b + ['.'] + c)
  {
    NatToStringOfDigitsValue(a);
    NatToStringOfDigitsValue(b);
    NatToStringOfDigitsValue(c);
    assert a + "." + b + "." + c == a + ['.'] + (b + ['.'] + c);
  }

  /**
   * Every string `validate_version_str` accepts parses, and formatting its value gives
   * it back without the final newline that `$` lets through.
   */
  lemma {:induction false} ValidatedParse(s: string)
    requires ValidateVersionStr(s)
    ensures ParseVersion(s).Ok?
    ensures Format(ParseVersion(s).value) == if IsStrictVersionStr(s) then s else s[..|s| - 1]
  {
    if IsStrictVersionStr(s) {
      FormatParse(s);
    } else {
      var t := s[..|s| - 1];
      assert s == t + "\n";
      FormatParse(t);
      NewlineParse(t);
    }
  }

  /** The newline after a string of the strict form is whitespace to `int()`. */
  lemma {:induction false} NewlineParse(t: string)
    requires IsStrictVersionStr(t)
    ensures ParseVersion(t + "\n") == ParseVersion(t)
  {
    StrictPieces(t);
    var parts := Split(t, '.');
    var a, b, c := parts[0], parts[1], parts[2];
    NewlineLast(a, b, c);
    NewlinePieces(a, b, c);
  }

  /** A line break after the text lands in the last piece. */
  lemma NewlineLast(a: string, b: string, c: string)
    ensures a + ['.'] + (b + ['.'] + c) + "\n" == "" + a + ['.'] + (b + ['.'] + (c + "\n"))
  {
  }

  /** A line break after the last of three digit runs leaves the parse unchanged. */
  lemma {:induction false} NewlinePieces(a: string, b: string, c: string)
    requires |a| >= 1 && |b| >= 1 && |c| >= 1 && AllDigits(a) && AllDigits(b) && AllDigits(c)
    ensures ParseVersion("" + a + ['.'] + (b + ['.'] + (c + "\n"))) == ParseVersion(a + ['.'] + (b + ['.'] + c))
  {
    var v := Semver(DigitsValue(a), DigitsValue(b), DigitsValue(c));
    ParsePieces("", a, b, c, "\n");
    assert ParseVersion(a + ['.'] + (b + ['.'] + c)) == Ok(v) by {
      EmptyEnds(a, b, c);
      ParsePieces("", a, b, c, "");
    }
  }

  /** Empty blanks around three pieces leave their dotted join as it is. */
  lemma EmptyEnds(a: string, b: string, c: string)
    ensures "" + a + ['.'] + (b + ['.'] + (c + "")) == a + ['.'] + (b + ['.'] + c)
  {
  }

  /** `Version('1.0')` cannot unpack two pieces into three names. */
  lemma UnpackExample()
    ensures ParseVersion("1.0") == Err(Unpack(2))
  {
    assert "1.0" == "1" + ['.'] + "0";
    SplitPair("1", "0", '.');
  }

  /** `int()` refuses a letter. */
  lemma LetterExample()
    ensures ParseVersion("1.a.0") == Err(InvalidLiteral("a"))
  {
    RefusedLiterals();
    OneNumeral();
    assert "1.a.0" == "1" + ['.'] + ("a" + ['.'] + "0");
    MiddleRefused("1", "a", "0");
  }

  /** A `-` sign gives Python a negative number, which a version component cannot be here. */
  lemma MinusExample()
    ensures ParseVersion("1.-2.0") == Err(InvalidLiteral("-2"))
  {
    RefusedLiterals();
    OneNumeral();
    assert "1.-2.0" == "1" + ['.'] + ("-2" + ['.'] + "0");
    MiddleRefused("1", "-2", "0");
  }

  /** `int()` refuses an underscore that does not sit between two digits. */
  lemma UnderscoreExample()
    ensures ParseVersion("1.2_.0") == Err(InvalidLiteral("2_"))
  {
    RefusedLiterals();
    OneNumeral();
    assert "1.2_.0" == "1" + ['.'] + ("2_" + ['.'] + "0");
    MiddleRefused("1", "2_", "0");
  }

  /** Three pieces whose first is a literal and whose second is not fail on the second. */
  lemma MiddleRefused(p0: string, p1: string, p2: string)
    requires '.' !in p0 && '.' !in p1 && '.' !in p2
    requires IsNumeral(p0) && !IsNumeral(p1)
    ensures ParseVersion(p0 + ['.'] + (p1 + ['.'] + p2)) == Err(InvalidLiteral(p1))
  {
    SplitThree(p0, p1, p2, '.');
  }

  /** The literals of the examples above that `int()` refuses. */
  lemma RefusedLiterals()
    ensures !IsNumeral("a") && !IsNumeral("-2") && !IsNumeral("2_")
  {
    assert TrimStart("a") == "a" && TrimEnd("a") == "a";
    assert TrimStart("-2") == "-2" && TrimEnd("-2") == "-2";
    assert TrimStart("2_") == "2_" && TrimEnd("2_") == "2_";
  }

  lemma OneNumeral()
    ensures IsNumeral("1")
  {
    assert "" + "1" + "" == "1";
    DigitsNumeral("", "1", "");
  }

  /** `1` and `1.0` have too few components. */
  lemma ValidateRejectsShort()
    ensures !ValidateVersionStr("1") && !ValidateVersionStr("1.0")
  {
    SplitWithoutSeparator("1", '.');
    SplitWithoutSeparator("0", '.');
    assert "1.0" == "1" + ['.'] + "0";
    SplitAround("1", "0", '.');
  }

  /** `01.0.1` has a leading zero. */
  lemma ValidateRejectsLeadingZero()
    ensures !ValidateVersionStr("01.0.1")
  {
    SplitWithoutSeparator("01", '.');
    SplitWithoutSeparator("0", '.');
    SplitWithoutSeparator("1", '.');
    assert "0.1" == "0" + ['.'] + "1";
    SplitAround("0", "1", '.');
    assert "01.0.1" == "01" + ['.'] + "0.1";
    SplitAround("01", "0.1", '.');
  }

  /** `1.1.1.1` has four components. */
  lemma ValidateRejectsLong()
    ensures !ValidateVersionStr("1.1.1.1")
  {
    SplitWithoutSeparator("1", '.');
    assert "1.1" == "1" + ['.'] + "1";
    SplitAround("1", "1", '.');
    assert "1.1.1" == "1" + ['.'] + "1.1";
    SplitAround("1", "1.1", '.');
    assert "1.1.1.1" == "1" + ['.'] + "1.1.1";
    SplitAround("1", "1.1.1", '.');
  }

  /** `a.b.c` has no digits. */
  lemma ValidateRejectsLetters()
    ensures !ValidateVersionStr("a.b.c")
  {
    SplitWithoutSeparator("a", '.');
    SplitWithoutSeparator("b", '.');
    SplitWithoutSeparator("c", '.');
    assert "b.c" == "b" + ['.'] + "c";
    SplitAround("b", "c", '.');
    assert "a.b.c" == "a" + ['.'] + "b.c";
    SplitAround("a", "b.c", '.');
  }

  // ---------------------------------------------------------------------------
  // ordering

  /** `Version.__lt__`: decided by the first component that differs. */
  predicate Less(a: Semver, b: Semver) {
    if a.major < b.major then true
    else if a.major > b.major then false
    else if a.minor < b.minor then true
    else if a.minor > b.minor then false
    else a.patch < b.patch
  }

  /** `Version.__le__`: `self < v or self == v`, where `__eq__` compares all three numbers. */
  predicate LessEq(a: Semver, b: Semver) {
    Less(a, b) || a == b
  }

  /** For any two versions exactly one of `<`, `==` and `>` holds. */
  lemma Trichotomy(a: Semver, b: Semver)
    ensures Less(a, b) || a == b || Less(b, a)
    ensures !(Less(a, b) && Less(b, a)) && !(Less(a, b) && a == b)
  {
  }

  lemma LessTransitive(a: Semver, b: Semver, c: Semver)
    requires Less(a, b) && Less(b, c)
    ensures Less(a, c)
  {
  }

  // ---------------------------------------------------------------------------
  // bump

  /** What `bump(part)` does to the numbers: any part other than `major` and `minor` bumps the patch. */
  function Bumped(v: Semver, part: string): (r: Semver)
    ensures part == "major" ==> r == Semver(v.major + 1, 0, 0)
    ensures part == "minor" ==> r == Semver(v.major, v.minor + 1, 0)
    ensures part != "major" && part != "minor" ==> r == Semver(v.major, v.minor, v.patch + 1)
    ensures Less(v, r)
  {
    if part == "major" then Semver(v.major + 1, 0, 0)
    else if part == "minor" then Semver(v.major, v.minor + 1, 0)
    else Semver(v.major, v.minor, v.patch + 1)
  }

  /** A release version, updated in place by `Bump`. */
  class Version {
    var major: nat
    var minor: nat
    var patch: nat
    /** The Python attribute `string`. */
    var text: string

    ghost predicate Valid()
      reads this
    {
      text == Format(Value())
    }

    function Value(): Semver
      reads this
    {
      Semver(major, minor, patch)
    }

    /** `Version(major=..., minor=..., patch=...)`; `Version()` is `Version(0, 0, 0)`. */
    constructor (major: nat, minor: nat, patch: nat)
      ensures Valid() && Value() == Semver(major, minor, patch)
    {
      this.major, this.minor, this.patch := major, minor, patch;
      text := Format(Semver(major, minor, patch));
    }

    /** `Version(string)`: the empty string is falsy and gives 0.0.0; the text is re-formatted. */
    constructor FromString(s: string)
      requires IsVersionArgument(s)
      ensures Valid() && Value() == ValueOfArgument(s)
    {
      var v := if s == "" then Zero else ParseVersion(s).value;
      major, minor, patch := v.major, v.minor, v.patch;
      text := Format(v);
    }

    /** `bump(bump_type)`: changes the numbers in place, then the text. */
    method Bump(part: string)
      requires Valid()
      modifies this
      ensures Valid() && Value() == Bumped(old(Value()), part)
      ensures Less(old(Value()), Value())
    {
      if part == "major" {
        major := major + 1;
        minor, patch := 0, 0;
      } else if part == "minor" {
        minor := minor + 1;
        patch := 0;
      } else {
        patch := patch + 1;
      }
      UpdateVersionString();
    }

    /** `_update_version_string` */
    method UpdateVersionString()
      modifies this`text
      ensures Valid()
    {
      text := Format(Value());
    }
  }

  /**
   * `Version(string)` for any string: a new version, or the `ValueError` Python raises
   * when the string is neither falsy nor three decimal literals joined by dots.
   */
  method NewVersion(s: string) returns (r: Result<Version, ValueError>)
    ensures r.Ok? <==> IsVersionArgument(s)
    ensures r.Ok? ==> fresh(r.value) && r.value.Valid() && r.value.Value() == ValueOfArgument(s)
    ensures r.Err? ==> ParseVersion(s) == Err(r.error)
  {
    if s != "" && ParseVersion(s).Err? {
      return Err(ParseVersion(s).error);
    }
    var v := new Version.FromString(s);
    return Ok(v);
  }

  // ---------------------------------------------------------------------------
  // comparison operators, including the TypeError for a non-Version operand

  datatype CompareOp = LtOp | LeOp | GtOp | GeOp | EqOp | NeOp

  /** An operand of a comparison: a `Version`, or a value of a built-in type such as `int`, `str`, `None`. */
  datatype Operand = Ver(v: Version) | Foreign(typeName: string)

  datatype TypeError = TypeError(message: string)

  function Symbol(op: CompareOp): string {
    match op
    case LtOp => "<"
    case LeOp => "<="
    case GtOp => ">"
    case GeOp => ">="
    case EqOp => "=="
    case NeOp => "!="
  }

  /** The error `_is_comparable` raises, naming both operands' classes. */
  function NotComparable(typeName: string): TypeError {
    TypeError("Comparison " + "not supported" + NotComparableTail(typeName))
  }

  function NotComparableTail(typeName: string): string {
    " between instances of '<class 'braulio.version.Version'>' and '<class '" + typeName + "'>'"
  }

  /** The error Python raises when neither operand's method handles the operator. */
  function Unsupported(op: CompareOp, leftName: string, rightName: string): TypeError {
    TypeError("'" + Symbol(op) + "' " + "not supported" + UnsupportedTail(leftName, rightName))
  }

  function UnsupportedTail(leftName: string, rightName: string): string {
    " between instances of '" + leftName + "' and '" + rightName + "'"
  }

  function Objects(left: Operand, right: Operand): set<Version> {
    (if left.Ver? then {left.v} else {}) + (if right.Ver? then {right.v} else {})
  }

  /**
   * `left <op> right` as Python evaluates it: `__lt__`, `__le__` and `__eq__` are defined,
   * `>` and `>=` come from the reflected `__lt__` and `__le__`, `!=` negates `__eq__`.
   * With a foreign operand, the Version method that Python reaches raises through
   * `_is_comparable`; when none is reached Python raises its own TypeError.
   */
  function Compare(left: Operand, op: CompareOp, right: Operand): (r: Result<bool, TypeError>)
    requires left.Ver? || right.Ver?
    reads Objects(left, right)
    ensures left.Ver? && right.Ver? ==> r.Ok?
    ensures left.Ver? && right.Ver? && op == LtOp ==> r == Ok(Less(left.v.Value(), right.v.Value()))
    ensures left.Ver? && right.Ver? && op == LeOp ==> r == Ok(LessEq(left.v.Value(), right.v.Value()))
    ensures left.Ver? && right.Ver? && op == GtOp ==> r == Ok(Less(right.v.Value(), left.v.Value()))
    ensures left.Ver? && right.Ver? && op == GeOp ==> r == Ok(LessEq(right.v.Value(), left.v.Value()))
    ensures left.Ver? && right.Ver? && op == EqOp ==> r == Ok(left.v.Value() == right.v.Value())
    ensures left.Ver? && right.Ver? && op == NeOp ==> r == Ok(left.v.Value() != right.v.Value())
    ensures left.Foreign? || right.Foreign? ==> r.Err? && Contains(r.error.message, "not supported")
  {
    match (left, right)
    case (Ver(a), Ver(b)) =>
      var x, y := a.Value(), b.Value();
      Ok(match op
         case LtOp => Less(x, y)
         case LeOp => LessEq(x, y)
         case GtOp => Less(y, x)
         case GeOp => LessEq(y, x)
         case EqOp => x == y
         case NeOp => x != y)
    case (Ver(_), Foreign(t)) =>
      var e := if op == GtOp || op == GeOp then Unsupported(op, "Version", t) else NotComparable(t);
      ContainsNotSupported(op, t);
      Err(e)
    case (Foreign(t), _) =>
      var e := if op == LtOp || op == LeOp then Unsupported(op, t, "Version") else NotComparable(t);
      ContainsNotSupported(op, t);
      Err(e)
  }

  lemma ContainsNotSupported(op: CompareOp, t: string)
    ensures Contains(NotComparable(t).message, "not supported")
    ensures Contains(Unsupported(op, "Version", t).message, "not supported")
    ensures Contains(Unsupported(op, t, "Version").message, "not supported")
  {
    ContainsInfix("Comparison ", "not supported", NotComparableTail(t));
    ContainsInfix("'" + Symbol(op) + "' ", "not supported", UnsupportedTail("Version", t));
    ContainsInfix("'" + Symbol(op) + "' ", "not supported", UnsupportedTail(t, "Version"));
  }

  /** Exactly one of `a < b`, `a == b`, `a > b` evaluates to True for two Versions. */
  lemma CompareTrichotomy(a: Version, b: Version)
    ensures var lt, eq, gt := Compare(Ver(a), LtOp, Ver(b)), Compare(Ver(a), EqOp, Ver(b)), Compare(Ver(a), GtOp, Ver(b));
      (lt == Ok(true) || eq == Ok(true) || gt == Ok(true))
      && !(lt == Ok(true) && eq == Ok(true)) && !(lt == Ok(true) && gt == Ok(true)) && !(eq == Ok(true) && gt == Ok(true))
  {
    Trichotomy(a.Value(), b.Value());
  }

  // ---------------------------------------------------------------------------
  // get_next_version

  predicate IsBumpKeyword(s: string) {
    s == "major" || s == "minor" || s == "patch"
  }

  /**
   * `get_next_version` on values: an explicit version is returned unless it does not
   * exceed the last one; a keyword bumps a copy of the last version (0.0.0 when there is none).
   */
  function NextVersion(bumpTo: string, last: Option<Semver>): (r: Option<Semver>)
    requires IsBumpKeyword(bumpTo) || IsVersionArgument(bumpTo)
    ensures last.Some? && r.Some? ==> Less(last.value, r.value)
    ensures IsBumpKeyword(bumpTo) ==> r == Some(Bumped(last.GetOr(Zero), bumpTo))
    ensures !IsBumpKeyword(bumpTo) && r.Some? ==> r.value == ValueOfArgument(bumpTo)
    ensures !IsBumpKeyword(bumpTo) ==> (r.None? <==> last.Some? && LessEq(ValueOfArgument(bumpTo), last.value))
  {
    if !IsBumpKeyword(bumpTo) then
      var v := ValueOfArgument(bumpTo);
      if last.Some? && LessEq(v, last.value) then None else Some(v)
    else
      Some(Bumped(last.GetOr(Zero), bumpTo))
  }

  function ValueOf(v: Version?): Option<Semver>
    reads v
  {
    if v == null then None else Some(v.Value())
  }

  /** `get_next_version(bump_version_to, last_version)`: a fresh Version, or null for `None`. */
  method GetNextVersion(bumpTo: string, last: Version?) returns (r: Version?)
    requires last != null ==> last.Valid()
    requires IsBumpKeyword(bumpTo) || IsVersionArgument(bumpTo)
    ensures r != null ==> fresh(r) && r.Valid()
    ensures ValueOf(r) == NextVersion(bumpTo, ValueOf(last))
    ensures last != null ==> unchanged(last)
  {
    if !IsBumpKeyword(bumpTo) {
      r := new Version.FromString(bumpTo);
      if last != null && Compare(Ver(r), LeOp, Ver(last)) == Ok(true) {
        return null;
      }
      return r;
    }
    r := new Version(0, 0, 0);
    if last != null {
      r := new Version(last.major, last.minor, last.patch);
    }
    r.Bump(bumpTo);
  }

  /** The keyword rows of the `get_next_version` test table. */
  lemma NextVersionKeywordExamples()
    ensures NextVersion("major", Some(Semver(4, 4, 7))) == Some(Semver(5, 0, 0))
    ensures NextVersion("minor", Some(Semver(4, 4, 7))) == Some(Semver(4, 5, 0))
    ensures NextVersion("patch", Some(Semver(4, 4, 7))) == Some(Semver(4, 4, 8))
    ensures NextVersion("major", None) == Some(Semver(1, 0, 0))
    ensures NextVersion("minor", None) == Some(Semver(0, 1, 0))
    ensures NextVersion("patch", None) == Some(Semver(0, 0, 1))
  {
  }

  /**
   * An explicit version argument is returned as it is, unless the last version is at
   * least as high, in which case there is no next version.
   */
  lemma NextVersionExplicit(v: Semver, last: Option<Semver>)
    ensures IsVersionArgument(Format(v)) && !IsBumpKeyword(Format(v))
    ensures NextVersion(Format(v), last) == if last.Some? && LessEq(v, last.value) then None else Some(v)
  {
    ParseFormat(v);
    SplitFormat(v);
    if IsBumpKeyword(Format(v)) {
      var w := Format(v);
      SplitWithoutSeparator(w, '.');
      assert false;
    }
  }

  /** The explicit-version rows of the `get_next_version` test table that give no version. */
  lemma NextVersionExplicitRefused()
    ensures IsVersionArgument("0.0.0") && NextVersion("0.0.0", Some(Semver(0, 0, 0))) == None
    ensures NextVersion("0.0.0", Some(Semver(0, 0, 1))) == None
  {
    assert Format(Semver(0, 0, 0)) == "0.0.0";
    NextVersionExplicit(Semver(0, 0, 0), Some(Semver(0, 0, 0)));
    NextVersionExplicit(Semver(0, 0, 0), Some(Semver(0, 0, 1)));
  }

  /** The explicit-version row of the `get_next_version` test table that follows a smaller last version. */
  lemma NextVersionExplicitAccepted()
    ensures IsVersionArgument("0.0.2") && NextVersion("0.0.2", Some(Semver(0, 0, 1))) == Some(Semver(0, 0, 2))
  {
    assert Format(Semver(0, 0, 2)) == "0.0.2";
    NextVersionExplicit(Semver(0, 0, 2), Some(Semver(0, 0, 1)));
  }

  /** The row `7.0.0` with no last version: the first release is the argument. */
  lemma NextVersionFirstRelease()
    ensures IsVersionArgument("7.0.0") && NextVersion("7.0.0", None) == Some(Semver(7, 0, 0))
  {
    assert Format(Semver(7, 0, 0)) == "7.0.0" by {
      assert DigitChar(7) == '7';
    }
    NextVersionExplicit(Semver(7, 0, 0), None);
  }

  /** A two-digit patch number, as in the row `0.0.12`. */
  lemma NextVersionTwoDigits()
    ensures IsVersionArgument("0.0.12") && NextVersion("0.0.12", None) == Some(Semver(0, 0, 12))
  {
    assert NatToString(12) == "12";
    assert Format(Semver(0, 0, 12)) == "0.0.12";
    NextVersionExplicit(Semver(0, 0, 12), None);
  }
}
