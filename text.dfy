/**
 * The pieces of Python's `str` behaviour the package relies on: `split`, `join`,
 * `strip`, `replace` of one character, `in` on substrings, `int()` of a run of ASCII
 * digits and formatting of a natural number, plus the leftmost scan that `re.search`
 * performs. Character classes are ASCII (`\d`, `\w`) except whitespace, which follows
 * `str.isspace` as `str.strip()` does.
 */
module Text {
  import opened Wrappers

  predicate IsDigit(c: char) { '0' <= c <= '9' }

  /** Regular-expression `\w`, restricted to ASCII. */
  predicate IsWordChar(c: char) {
    'a' <= c <= 'z' || 'A' <= c <= 'Z' || IsDigit(c) || c == '_'
  }

  /** The characters `str.isspace` accepts, so the ones `str.strip()` removes. */
  predicate IsSpace(c: char) {
    c == ' ' || '\t' <= c <= '\r' || '\U{1C}' <= c <= '\U{1F}' || c == '\U{85}' || c == '\U{A0}'
    || c == '\U{1680}' || '\U{2000}' <= c <= '\U{200A}' || c == '\U{2028}' || c == '\U{2029}'
    || c == '\U{202F}' || c == '\U{205F}' || c == '\U{3000}'
  }

  predicate AllDigits(s: string) { forall i :: 0 <= i < |s| ==> IsDigit(s[i]) }

  predicate AllSpace(s: string) { forall i :: 0 <= i < |s| ==> IsSpace(s[i]) }

  /** A decimal numeral without a leading zero: `0`, or a digit run that does not start with `0`. */
  predicate IsCanonicalNumeral(s: string) {
    |s| >= 1 && AllDigits(s) && (s[0] != '0' || s == "0")
  }

  /** Number of occurrences of `c` in `s` (`str.count` of one character). */
  function Count(s: string, c: char): nat {
    if s == [] then 0 else (if s[0] == c then 1 else 0) + Count(s[1..], c)
  }

  // ---------------------------------------------------------------------------
  // split and join

  /** `s.split(sep)` for a one-character separator: always at least one piece. */
  function Split(s: string, sep: char): (parts: seq<string>)
    ensures |parts| == Count(s, sep) + 1
    ensures forall i :: 0 <= i < |parts| ==> sep !in parts[i]
  {
    if s == [] then [""]
    else
      var rest := Split(s[1..], sep);
      if s[0] == sep then [""] + rest
      else [[s[0]] + rest[0]] + rest[1..]
  }

  /** `sep.join(parts)`. */
  function Join(parts: seq<string>, sep: string): string {
    if |parts| == 0 then ""
    else if |parts| == 1 then parts[0]
    else parts[0] + sep + Join(parts[1..], sep)
  }

  /** `''.join(parts)`. */
  function Concat(parts: seq<string>): string {
    if parts == [] then "" else parts[0] + Concat(parts[1..])
  }

  lemma {:induction false} SplitWithoutSeparator(s: string, sep: char)
    requires sep !in s
    ensures Split(s, sep) == [s]
  {
    if s != [] {
      SplitWithoutSeparator(s[1..], sep);
      assert [s[0]] + s[1..] == s;
    }
  }

  /** Splitting distributes over a separator between two texts. */
  lemma {:induction false} SplitAround(a: string, b: string, sep: char)
    ensures Split(a + [sep] + b, sep) == Split(a, sep) + Split(b, sep)
  {
    if a == [] {
      assert (a + [sep] + b)[1..] == b;
    } else {
      assert (a + [sep] + b)[1..] == a[1..] + [sep] + b;
      SplitAround(a[1..], b, sep);
    }
  }

  /** Two separator-free texts around one separator split into the two. */
  lemma SplitPair(a: string, b: string, sep: char)
    requires sep !in a && sep !in b
    ensures Split(a + [sep] + b, sep) == [a, b]
  {
    SplitAround(a, b, sep);
    SplitWithoutSeparator(a, sep);
    SplitWithoutSeparator(b, sep);
  }

  /** Joining the pieces of a split gives back the text. */
  lemma {:induction false} JoinSplit(s: string, sep: char)
    ensures Join(Split(s, sep), [sep]) == s
  {
    if s != [] {
      JoinSplit(s[1..], sep);
      var rest := Split(s[1..], sep);
      if s[0] != sep {
        if |rest| == 1 {
        } else {
          assert ([[s[0]] + rest[0]] + rest[1..])[1..] == rest[1..];
          assert Join(rest, [sep]) == rest[0] + [sep] + Join(rest[1..], [sep]);
        }
      } else {
        assert ([""] + rest)[1..] == rest;
      }
    }
  }

  /** Splitting a join of separator-free pieces gives back the pieces. */
  lemma {:induction false} SplitJoin(parts: seq<string>, sep: char)
    requires |parts| >= 1
    requires forall i :: 0 <= i < |parts| ==> sep !in parts[i]
    ensures Split(Join(parts, [sep]), sep) == parts
  {
    if |parts| == 1 {
      SplitWithoutSeparator(parts[0], sep);
    } else {
      SplitJoin(parts[1..], sep);
      SplitWithoutSeparator(parts[0], sep);
      SplitAround(parts[0], Join(parts[1..], [sep]), sep);
      assert [parts[0]] + parts[1..] == parts;
    }
  }

  lemma {:induction false} ConcatAppend(a: seq<string>, b: seq<string>)
    ensures Concat(a + b) == Concat(a) + Concat(b)
  {
    if a == [] {
      assert a + b == b;
    } else {
      assert (a + b)[1..] == a[1..] + b;
      ConcatAppend(a[1..], b);
    }
  }

  /** Text made of the given lines, each ended by a newline. */
  function Lines(xs: seq<string>): string {
    if xs == [] then "" else xs[0] + "\n" + Lines(xs[1..])
  }

  lemma {:induction false} LinesAppend(xs: seq<string>, ys: seq<string>)
    ensures Lines(xs + ys) == Lines(xs) + Lines(ys)
  {
    if xs == [] {
      assert xs + ys == ys;
    } else {
      assert (xs + ys)[1..] == xs[1..] + ys;
      LinesAppend(xs[1..], ys);
    }
  }

  /** Splitting newline-ended lines at newlines gives them back, and an empty remainder. */
  lemma {:induction false} SplitLines(xs: seq<string>)
    requires forall i :: 0 <= i < |xs| ==> '\n' !in xs[i]
    ensures Split(Lines(xs), '\n') == xs + [""]
  {
    if xs != [] {
      SplitLines(xs[1..]);
      SplitWithoutSeparator(xs[0], '\n');
      SplitAround(xs[0], Lines(xs[1..]), '\n');
      assert [xs[0]] + (xs[1..] + [""]) == xs + [""];
    }
  }

  // ---------------------------------------------------------------------------
  // strip and replace

  /** The number of whitespace characters `s` starts with. */
  function LeadingSpaces(s: string): (n: nat)
    ensures n <= |s|
    ensures forall k :: 0 <= k < n ==> IsSpace(s[k])
    ensures n < |s| ==> !IsSpace(s[n])
  {
    if s != [] && IsSpace(s[0]) then
      var m := LeadingSpaces(s[1..]);
      assert forall k :: 1 <= k <= m ==> s[k] == s[1..][k - 1];
      1 + m
    else 0
  }

  /** The number of whitespace characters `s` ends with. */
  function TrailingSpaces(s: string): (n: nat)
    ensures n <= |s|
    ensures forall k :: |s| - n <= k < |s| ==> IsSpace(s[k])
    ensures n < |s| ==> !IsSpace(s[|s| - 1 - n])
  {
    if s != [] && IsSpace(s[|s| - 1]) then
      var m := TrailingSpaces(s[..|s| - 1]);
      assert forall k :: |s| - 1 - m <= k < |s| - 1 ==> s[k] == s[..|s| - 1][k];
      1 + m
    else 0
  }

  /**
   * `s.strip()`: the text between the leading and the trailing whitespace, which it
   * neither starts nor ends with.
   */
  function Strip(s: string): (r: string)
    ensures var i := LeadingSpaces(s);
      i + |r| <= |s| && r == s[i..i + |r|]
      && (forall k :: 0 <= k < i ==> IsSpace(s[k])) && (forall k :: i + |r| <= k < |s| ==> IsSpace(s[k]))
    ensures r == [] || (!IsSpace(r[0]) && !IsSpace(r[|r| - 1]))
  {
    var i := LeadingSpaces(s);
    if i == |s| then ""
    else
      var j := |s| - TrailingSpaces(s);
      assert i < j;
      s[i..j]
  }

  /** `s.replace(c, '')`. */
  function Remove(s: string, c: char): (r: string)
    ensures c !in r
    ensures |r| == |s| - Count(s, c)
  {
    if s == [] then "" else (if s[0] == c then "" else [s[0]]) + Remove(s[1..], c)
  }

  /** Three pieces without the separator, joined by it, split back into those pieces. */
  lemma SplitThree(a: string, b: string, c: string, sep: char)
    requires sep !in a && sep !in b && sep !in c
    ensures Split(a + [sep] + (b + [sep] + c), sep) == [a, b, c]
  {
    SplitWithoutSeparator(a, sep);
    SplitWithoutSeparator(b, sep);
    SplitWithoutSeparator(c, sep);
    SplitAround(b, c, sep);
    SplitAround(a, b + [sep] + c, sep);
  }

  /** Removing a character that occurs once, between two pieces without it, joins the pieces. */
  lemma RemoveBetween(a: string, b: string, x: char)
    requires x !in a && x !in b
    ensures Remove(a + [x] + b, x) == a + b
  {
    assert Remove(a + [x], x) == a by {
      RemoveAppend(a, [x], x);
      RemoveAbsent(a, x);
      assert Remove([x], x) == [];
    }
    RemoveAppend(a + [x], b, x);
    RemoveAbsent(b, x);
  }

  /** Removing a character that occurs twice, between three pieces without it, joins the pieces. */
  lemma RemoveTwo(a: string, b: string, c: string, x: char)
    requires x !in a && x !in b && x !in c
    ensures Remove(a + [x] + (b + [x] + c), x) == a + (b + c)
  {
    assert Remove(a + [x], x) == a by {
      RemoveAppend(a, [x], x);
      RemoveAbsent(a, x);
      assert Remove([x], x) == [];
    }
    assert Remove(b + [x] + c, x) == b + c by {
      RemoveBetween(b, c, x);
    }
    RemoveAppend(a + [x], b + [x] + c, x);
  }

  /** A character absent from a text is absent from each of its pieces. */
  lemma {:induction false} SplitInside(s: string, sep: char, c: char)
    requires c !in s
    ensures forall i :: 0 <= i < |Split(s, sep)| ==> c !in Split(s, sep)[i]
  {
    if s != [] {
      SplitInside(s[1..], sep, c);
    }
  }

  /** What `strip` keeps is a part of its input, so a character absent from the input is absent from it. */
  lemma StripInside(s: string, c: char)
    requires c !in s
    ensures c !in Strip(s)
  {
    var r := Strip(s);
    var i := LeadingSpaces(s);
    forall k | 0 <= k < |r| ensures r[k] != c {
      assert r[k] == s[i + k];
    }
  }

  /** Text that neither starts nor ends with whitespace is its own strip. */
  lemma StripTrimmed(s: string)
    requires s == [] || (!IsSpace(s[0]) && !IsSpace(s[|s| - 1]))
    ensures Strip(s) == s
  {
  }

  /** Blanks around a text that neither starts nor ends with whitespace are what `strip` removes. */
  lemma StripPadded(t: string)
    requires t != [] && !IsSpace(t[0]) && !IsSpace(t[|t| - 1])
    ensures Strip(" " + t) == t
    ensures Strip(" " + t + " ") == t
  {
    assert (" " + t)[1..] == t;
    assert LeadingSpaces(t) == 0;
    assert LeadingSpaces(" " + t) == 1;
    assert TrailingSpaces(" " + t) == 0;
    var u := " " + t + " ";
    assert u[1..] == t + " ";
    assert LeadingSpaces(t + " ") == 0;
    assert LeadingSpaces(u) == 1;
    assert u[..|u| - 1] == " " + t;
    assert TrailingSpaces(u) == 1;
  }

  /** Any whitespace around a text that neither starts nor ends with whitespace is what `strip` removes. */
  lemma StripAround(l: string, t: string, r: string)
    requires AllSpace(l) && AllSpace(r)
    requires t != [] && !IsSpace(t[0]) && !IsSpace(t[|t| - 1])
    ensures Strip(l + t + r) == t
  {
    var s := l + t + r;
    var u := Strip(s);
    assert s[|l|] == t[0] && s[|l| + |t| - 1] == t[|t| - 1];
    assert forall k :: 0 <= k < |l| ==> s[k] == l[k];
    assert forall k :: |l| + |t| <= k < |s| ==> s[k] == r[k - |l| - |t|];
    assert LeadingSpaces(s) == |l|;
    assert u == s[|l|..|l| + |t|];
  }

  /** `replace` works piece by piece. */
  lemma {:induction false} RemoveAppend(a: string, b: string, c: char)
    ensures Remove(a + b, c) == Remove(a, c) + Remove(b, c)
  {
    if a == [] {
      assert a + b == b;
    } else {
      assert (a + b)[0] == a[0] && (a + b)[1..] == a[1..] + b;
      RemoveAppend(a[1..], b, c);
    }
  }

  /** Removing a character that does not occur changes nothing. */
  lemma {:induction false} RemoveAbsent(s: string, c: char)
    requires c !in s
    ensures Remove(s, c) == s
  {
    if s != [] {
      RemoveAbsent(s[1..], c);
      assert [s[0]] + s[1..] == s;
    }
  }

  /** `c * n` for a one-character string `c`. */
  function Repeat(c: char, n: nat): (r: string)
    ensures |r| == n && forall i :: 0 <= i < n ==> r[i] == c
  {
    seq(n, _ => c)
  }

  /** `s[n:]`: empty when `s` is shorter than `n`. */
  function Drop(s: string, n: nat): (r: string)
    ensures |s| <= n ==> r == ""
    ensures n < |s| ==> r == s[n..]
  {
    if |s| <= n then "" else s[n..]
  }

  // ---------------------------------------------------------------------------
  // substrings and scanning

  predicate OccursAt(s: string, sub: string, i: nat) {
    i + |sub| <= |s| && s[i..i + |sub|] == sub
  }

  /** `sub in s`. */
  function Contains(s: string, sub: string): (r: bool)
    ensures r <==> exists i: nat :: OccursAt(s, sub, i)
    decreases |s|
  {
    if |sub| > |s| then false
    else if s[..|sub|] == sub then (assert OccursAt(s, sub, 0); true)
    else
      var r := Contains(s[1..], sub);
      if r then
        var i: nat :| OccursAt(s[1..], sub, i);
        assert OccursAt(s, sub, i + 1);
        r
      else
        assert forall i: nat :: OccursAt(s, sub, i) ==> i > 0 && OccursAt(s[1..], sub, i - 1);
        r
  }

  lemma ContainsInfix(a: string, sub: string, b: string)
    ensures Contains(a + sub + b, sub)
  {
    assert OccursAt(a + sub + b, sub, |a|);
  }

  /**
   * `re.search` at heart: the leftmost position from `i` on at which `at` matches,
   * with what it matched; no earlier position matches.
   */
  function FirstMatch<T>(s: string, i: nat, at: (string, nat) -> Option<T>): (r: Option<(nat, T)>)
    requires i <= |s|
    ensures r.Some? ==> i <= r.value.0 <= |s| && at(s, r.value.0) == Some(r.value.1)
    ensures r.Some? ==> forall j :: i <= j < r.value.0 ==> at(s, j).None?
    ensures r.None? ==> forall j :: i <= j <= |s| ==> at(s, j).None?
    decreases |s| - i
  {
    match at(s, i)
    case Some(t) => Some((i, t))
    case None => if i == |s| then None else FirstMatch(s, i + 1, at)
  }

  /** End of the longest run of `inRun` characters starting at `p` (a greedy `\w*` or `\d*`). */
  function RunEnd(s: string, p: nat, inRun: char -> bool): (q: nat)
    requires p <= |s|
    ensures p <= q <= |s|
    ensures forall k :: p <= k < q ==> inRun(s[k])
    ensures q == |s| || !inRun(s[q])
    decreases |s| - p
  {
    if p == |s| || !inRun(s[p]) then p else RunEnd(s, p + 1, inRun)
  }

  // ---------------------------------------------------------------------------
  // numerals

  function DigitChar(d: nat): (c: char)
    requires d < 10
    ensures IsDigit(c) && c as int - '0' as int == d
  {
    ('0' as int + d) as char
  }

  /** `str(n)` for a natural number. */
  function NatToString(n: nat): (r: string)
    ensures |r| >= 1 && AllDigits(r)
    ensures r[0] == '0' <==> n == 0
    ensures n == 0 ==> r == "0"
  {
    if n < 10 then [DigitChar(n)] else NatToString(n / 10) + [DigitChar(n % 10)]
  }

  /** `int(s)` for a run of ASCII digits (leading zeros allowed). */
  function DigitsValue(s: string): nat
    requires AllDigits(s)
  {
    if s == [] then 0 else DigitsValue(s[..|s| - 1]) * 10 + (s[|s| - 1] as int - '0' as int)
  }

  lemma {:induction false} DigitsValueOfNatToString(n: nat)
    ensures DigitsValue(NatToString(n)) == n
  {
    if n >= 10 {
      var r := NatToString(n);
      assert r[..|r| - 1] == NatToString(n / 10);
      DigitsValueOfNatToString(n / 10);
    }
  }

  lemma {:induction false} LeadingNonZeroIsPositive(s: string)
    requires AllDigits(s) && |s| >= 1 && s[0] != '0'
    ensures DigitsValue(s) >= 1
  {
    if |s| > 1 {
      LeadingNonZeroIsPositive(s[..|s| - 1]);
    }
  }

  /** A canonical numeral is what `str` prints for its value. */
  lemma {:induction false} NatToStringOfDigitsValue(s: string)
    requires IsCanonicalNumeral(s)
    ensures NatToString(DigitsValue(s)) == s
  {
    if |s| > 1 {
      var init := s[..|s| - 1];
      var d := s[|s| - 1] as int - '0' as int;
      NatToStringOfDigitsValue(init);
      LeadingNonZeroIsPositive(init);
      var n := DigitsValue(s);
      assert n == DigitsValue(init) * 10 + d;
      assert n / 10 == DigitsValue(init) && n % 10 == d;
      assert s == init + [s[|s| - 1]];
    }
  }

  lemma CanonicalNatToString(n: nat)
    ensures IsCanonicalNumeral(NatToString(n))
  {
  }
}
