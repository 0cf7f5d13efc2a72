/**
 The Python string operations the pipeline scripts rely on, written over
 `string` (a `seq<char>`): `str.strip`, `str.split` on one character,
 `str.join`, `str.startswith`/`endswith`, ASCII `str.lower`, decimal
 rendering (`f"{n}"`) and the integer parser `int()`.
 */
module Text {

  datatype Option<T> = None | Some(value: T)

  /** Python's `str.isspace()`: the characters `str.strip()` and the regular
      expression class `\s` treat as whitespace. */
  predicate IsSpace(c: char) {
    c == ' ' || ('\t' <= c <= '\r') || ('\U{1C}' <= c <= '\U{1F}')
    || c == '\U{85}' || c == '\U{A0}' || c == '\U{1680}'
    || ('\U{2000}' <= c <= '\U{200A}') || c == '\U{2028}' || c == '\U{2029}'
    || c == '\U{202F}' || c == '\U{205F}' || c == '\U{3000}'
  }

  predicate IsDigit(c: char) { '0' <= c <= '9' }

  predicate AllDigits(s: string) { forall i :: 0 <= i < |s| ==> IsDigit(s[i]) }

  predicate IsAsciiLetter(c: char) { ('a' <= c <= 'z') || ('A' <= c <= 'Z') }

  /** `str.lower()` restricted to ASCII letters. */
  function LowerChar(c: char): (r: char)
    ensures IsDigit(c) ==> r == c
    ensures !(('A' <= r) && (r <= 'Z'))
  {
    if 'A' <= c <= 'Z' then (c as int - 'A' as int + 'a' as int) as char else c
  }

  function Lower(s: string): (r: string)
    ensures |r| == |s|
    ensures forall i :: 0 <= i < |s| ==> r[i] == LowerChar(s[i])
  {
    if s == [] then [] else [LowerChar(s[0])] + Lower(s[1..])
  }

  predicate StartsWith(s: string, prefix: string) {
    |prefix| <= |s| && s[..|prefix|] == prefix
  }

  predicate EndsWith(s: string, suffix: string) {
    |suffix| <= |s| && s[|s| - |suffix|..] == suffix
  }

  /** The elements of a list, as `set(xs)`. */
  function SetOf<T>(xs: seq<T>): set<T> {
    set x | x in xs
  }

  /** No element occurs twice. */
  predicate Distinct<T(==)>(xs: seq<T>) {
    forall i, j :: 0 <= i < j < |xs| ==> xs[i] != xs[j]
  }

  /** `needle in s` for strings. */
  predicate Contains(s: string, needle: string) {
    StartsWith(s, needle) || (s != [] && Contains(s[1..], needle))
  }

  /** Text that does not contain `needle` has no occurrence of it at any
      position. */
  lemma {:induction false} NotContainsAt(s: string, needle: string, k: nat)
    requires !Contains(s, needle) && k <= |s|
    ensures !StartsWith(s[k..], needle)
    decreases k
  {
    if k == 0 {
      assert s[0..] == s;
    } else {
      assert s[1..][k - 1..] == s[k..];
      NotContainsAt(s[1..], needle, k - 1);
    }
  }

  /** Text with no occurrence of `needle` at any position does not
      contain it. */
  lemma {:induction false} NoneAtNotContains(s: string, needle: string)
    requires forall j :: 0 <= j <= |s| ==> !StartsWith(s[j..], needle)
    ensures !Contains(s, needle)
    decreases |s|
  {
    assert s[0..] == s;
    if s != [] {
      forall j | 0 <= j <= |s[1..]| ensures !StartsWith(s[1..][j..], needle) {
        assert s[1..][j..] == s[j + 1..];
      }
      NoneAtNotContains(s[1..], needle);
    }
  }

  // ---------------------------------------------------------------------
  // strip

  /** `s.lstrip(chars)` where `drop` tells which characters are stripped. */
  function LStripBy(s: string, drop: char -> bool): (r: string)
    ensures |r| <= |s| && r == s[|s| - |r|..]
    ensures r != [] ==> !drop(r[0])
    ensures forall i :: 0 <= i < |s| - |r| ==> drop(s[i])
  {
    if s != [] && drop(s[0]) then
      var r := LStripBy(s[1..], drop);
      assert s[1..][|s| - 1 - |r|..] == s[|s| - |r|..];
      assert forall i :: 1 <= i < |s| - |r| ==> s[i] == s[1..][i - 1];
      r
    else s
  }

  /** `s.rstrip(chars)`. */
  function RStripBy(s: string, drop: char -> bool): (r: string)
    ensures |r| <= |s| && r == s[..|r|]
    ensures r != [] ==> !drop(r[|r| - 1])
    ensures forall i :: |r| <= i < |s| ==> drop(s[i])
  {
    if s != [] && drop(s[|s| - 1]) then
      var r := RStripBy(s[..|s| - 1], drop);
      assert s[..|s| - 1][..|r|] == s[..|r|];
      assert forall i :: |r| <= i < |s| - 1 ==> s[i] == s[..|s| - 1][i];
      r
    else s
  }

  /** `s.lstrip()`. */
  function LStrip(s: string): (r: string)
    ensures |r| <= |s|
    ensures r != [] ==> !IsSpace(r[0])
  {
    if s != [] && IsSpace(s[0]) then LStrip(s[1..]) else s
  }

  /** `s.rstrip()`. */
  function RStrip(s: string): (r: string)
    ensures |r| <= |s|
    ensures r != [] ==> r[0] == s[0] && !IsSpace(r[|r| - 1])
  {
    if s != [] && IsSpace(s[|s| - 1]) then RStrip(s[..|s| - 1]) else s
  }

  /** `s.strip()`: whitespace removed from both ends (`StripTrims` says that
      nothing else is removed). */
  function Strip(s: string): (r: string)
    ensures r != [] ==> !IsSpace(r[0]) && !IsSpace(r[|r| - 1])
    ensures |r| <= |s|
  {
    RStrip(LStrip(s))
  }

  /** `lstrip()` keeps a suffix and drops only whitespace. */
  lemma {:induction false} LStripKeepsSuffix(s: string)
    ensures LStrip(s) == s[|s| - |LStrip(s)|..]
    ensures forall k :: 0 <= k < |s| - |LStrip(s)| ==> IsSpace(s[k])
    decreases |s|
  {
    if s != [] && IsSpace(s[0]) {
      LStripKeepsSuffix(s[1..]);
      var r := LStrip(s[1..]);
      assert s[1..][|s| - 1 - |r|..] == s[|s| - |r|..];
      assert forall k :: 1 <= k < |s| - |r| ==> s[k] == s[1..][k - 1];
    }
  }

  /** `rstrip()` keeps a prefix and drops only whitespace. */
  lemma {:induction false} RStripKeepsPrefix(s: string)
    ensures RStrip(s) == s[..|RStrip(s)|]
    ensures forall k :: |RStrip(s)| <= k < |s| ==> IsSpace(s[k])
    decreases |s|
  {
    if s != [] && IsSpace(s[|s| - 1]) {
      RStripKeepsPrefix(s[..|s| - 1]);
      var r := RStrip(s[..|s| - 1]);
      assert s[..|s| - 1][..|r|] == s[..|r|];
      assert forall k :: |r| <= k < |s| - 1 ==> s[k] == s[..|s| - 1][k];
    }
  }

  /** `strip()` removes whitespace at the ends and nothing else: its result
      is a slice of `s` with only whitespace before and after it. */
  lemma StripTrims(s: string)
    ensures exists i :: TrimmedAt(s, i, Strip(s))
  {
    var l := LStrip(s);
    LStripKeepsSuffix(s);
    RStripKeepsPrefix(l);
    StripTrimmed(s, l, RStrip(l));
    assert TrimmedAt(s, |s| - |l|, Strip(s));
  }

  lemma StripTrimmed(s: string, l: string, r: string)
    requires |l| <= |s| && l == s[|s| - |l|..]
    requires forall k :: 0 <= k < |s| - |l| ==> IsSpace(s[k])
    requires |r| <= |l| && r == l[..|r|]
    requires forall k :: |r| <= k < |l| ==> IsSpace(l[k])
    ensures TrimmedAt(s, |s| - |l|, r)
  {
    var i := |s| - |l|;
    forall k | i + |r| <= k < |s|
      ensures IsSpace(s[k])
    {
      assert s[k] == l[k - i];
    }
  }

  /** `r` is the slice of `s` starting at `i`, and everything of `s` before
      and after that slice is whitespace. */
  predicate TrimmedAt(s: string, i: int, r: string) {
    0 <= i <= |s| - |r| && r == s[i..i + |r|]
    && (forall k :: 0 <= k < i ==> IsSpace(s[k]))
    && (forall k :: i + |r| <= k < |s| ==> IsSpace(s[k]))
  }

  /** Every character of `s` satisfies `p`. */
  predicate AllBy(s: string, p: char -> bool) {
    forall i :: 0 <= i < |s| ==> p(s[i])
  }

  /** `lstrip(chars)` takes off a leading run of stripped characters and
      stops at the first character it keeps. */
  lemma {:induction false} LStripByPrefix(a: string, b: string, drop: char -> bool)
    requires AllBy(a, drop) && (b != [] ==> !drop(b[0]))
    ensures LStripBy(a + b, drop) == b
    decreases |a|
  {
    if a == [] {
      assert a + b == b;
    } else {
      assert (a + b)[1..] == a[1..] + b;
      LStripByPrefix(a[1..], b, drop);
    }
  }

  /** `rstrip(chars)` takes off a trailing run of stripped characters and
      stops at the last character it keeps. */
  lemma {:induction false} RStripBySuffix(a: string, b: string, drop: char -> bool)
    requires AllBy(b, drop) && (a != [] ==> !drop(a[|a| - 1]))
    ensures RStripBy(a + b, drop) == a
    decreases |b|
  {
    if b == [] {
      assert a + b == a;
    } else {
      assert (a + b)[..|a + b| - 1] == a + b[..|b| - 1];
      RStripBySuffix(a, b[..|b| - 1], drop);
    }
  }

  lemma {:induction false} LStripIsBy(s: string)
    ensures LStrip(s) == LStripBy(s, IsSpace)
    decreases |s|
  {
    if s != [] {
      LStripIsBy(s[1..]);
    }
  }

  lemma {:induction false} RStripIsBy(s: string)
    ensures RStrip(s) == RStripBy(s, IsSpace)
    decreases |s|
  {
    if s != [] {
      RStripIsBy(s[..|s| - 1]);
    }
  }

  /** `strip()` of a text wrapped in whitespace gives back the text, when
      the text neither starts nor ends with whitespace. */
  lemma StripAround(w1: string, m: string, w2: string)
    requires AllBy(w1, IsSpace) && AllBy(w2, IsSpace)
    requires m != [] && !IsSpace(m[0]) && !IsSpace(m[|m| - 1])
    ensures Strip(w1 + m + w2) == m
  {
    assert w1 + m + w2 == w1 + (m + w2);
    LStripIsBy(w1 + m + w2);
    LStripByPrefix(w1, m + w2, IsSpace);
    RStripIsBy(m + w2);
    RStripBySuffix(m, w2, IsSpace);
  }

  /** `strip()` only removes characters. */
  lemma StripIn(s: string)
    ensures forall x :: x in Strip(s) ==> x in s
  {
    LStripIn(s);
    RStripIn(LStrip(s));
  }

  lemma {:induction false} LStripIn(s: string)
    ensures forall x :: x in LStrip(s) ==> x in s
    decreases |s|
  {
    if s != [] && IsSpace(s[0]) {
      LStripIn(s[1..]);
    }
  }

  lemma {:induction false} RStripIn(s: string)
    ensures forall x :: x in RStrip(s) ==> x in s
    decreases |s|
  {
    if s != [] && IsSpace(s[|s| - 1]) {
      RStripIn(s[..|s| - 1]);
    }
  }

  /** A string with no whitespace at either end is its own `strip()`. */
  lemma StripNoSpace(s: string)
    requires s != [] ==> !IsSpace(s[0]) && !IsSpace(s[|s| - 1])
    ensures Strip(s) == s
  {
  }

  // ---------------------------------------------------------------------
  // split / join on one separator character

  /** The position of the first occurrence of `c` in `s`. */
  function IndexOf(s: string, c: char): (k: nat)
    requires c in s
    ensures k < |s| && s[k] == c && c !in s[..k]
  {
    if s[0] == c then 0 else 1 + IndexOf(s[1..], c)
  }

  /** `s.split(c, 1)` when `c` occurs in `s`: the text before and after the
      first occurrence. */
  function SplitFirst(s: string, c: char): (r: (string, string))
    requires c in s
    ensures s == r.0 + [c] + r.1 && c !in r.0
  {
    var k := IndexOf(s, c);
    assert s == s[..k] + [c] + s[k + 1..];
    (s[..k], s[k + 1..])
  }

  /** A position holding `c` with no `c` before it is the first occurrence. */
  lemma {:induction false} IndexOfAt(s: string, c: char, j: nat)
    requires j < |s| && s[j] == c && c !in s[..j]
    ensures IndexOf(s, c) == j
  {
    if j > 0 {
      assert s[0] in s[..j];
      assert s[1..][..j - 1] == s[1..j];
      assert forall x :: x in s[1..j] ==> x in s[..j];
      IndexOfAt(s[1..], c, j - 1);
    }
  }

  /** The first occurrence of `c` in `p + [c] + q` ends `p`. */
  lemma SplitFirstAt(p: string, q: string, c: char)
    requires c !in p
    ensures c in p + [c] + q
    ensures SplitFirst(p + [c] + q, c) == (p, q)
  {
    var s := p + [c] + q;
    assert s[|p|] == c;
    assert s[..|p|] == p;
    IndexOfAt(s, c, |p|);
    assert s[|p| + 1..] == q;
  }

  /** `s.split(sep)` for a one-character separator: never empty, and the
      pieces hold no separator. */
  function Split(s: string, sep: char): (r: seq<string>)
    ensures |r| >= 1
    ensures forall k :: 0 <= k < |r| ==> sep !in r[k]
  {
    if s == [] then [[]]
    else if s[0] == sep then [[]] + Split(s[1..], sep)
    else
      var rest := Split(s[1..], sep);
      [[s[0]] + rest[0]] + rest[1..]
  }

  /** `sep.join(parts)`. */
  function Join(parts: seq<string>, sep: char): string {
    if |parts| == 0 then []
    else if |parts| == 1 then parts[0]
    else parts[0] + [sep] + Join(parts[1..], sep)
  }

  lemma {:induction false} SplitNoSep(p: string, sep: char)
    requires sep !in p
    ensures Split(p, sep) == [p]
  {
    if p != [] {
      SplitNoSep(p[1..], sep);
      assert [p[0]] + p[1..] == p;
    }
  }

  lemma {:induction false} SplitAtSep(p: string, t: string, sep: char)
    requires sep !in p
    ensures Split(p + [sep] + t, sep) == [p] + Split(t, sep)
  {
    if p == [] {
      assert p + [sep] + t == [sep] + t;
      assert ([sep] + t)[1..] == t;
    } else {
      var s := p + [sep] + t;
      assert s[0] == p[0] && s[1..] == p[1..] + [sep] + t;
      SplitAtSep(p[1..], t, sep);
      assert [p[0]] + p[1..] == p;
    }
  }

  /** Splitting a join gives back the parts when no part holds the separator. */
  lemma {:induction false} SplitJoin(parts: seq<string>, sep: char)
    requires |parts| >= 1
    requires forall k :: 0 <= k < |parts| ==> sep !in parts[k]
    ensures Split(Join(parts, sep), sep) == parts
  {
    if |parts| == 1 {
      SplitNoSep(parts[0], sep);
    } else {
      SplitJoin(parts[1..], sep);
      SplitAtSep(parts[0], Join(parts[1..], sep), sep);
      assert [parts[0]] + parts[1..] == parts;
    }
  }

  /** A character in a join sits in a part or is the separator. */
  lemma {:induction false} JoinChars(parts: seq<string>, sep: char, c: char)
    requires c in Join(parts, sep)
    ensures c == sep || exists k :: 0 <= k < |parts| && c in parts[k]
  {
    if |parts| > 1 {
      var rest := Join(parts[1..], sep);
      if c !in parts[0] && c != sep {
        assert c in rest;
        JoinChars(parts[1..], sep, c);
        var k :| 0 <= k < |parts[1..]| && c in parts[1..][k];
        assert c in parts[k + 1];
      }
    }
  }

  // ---------------------------------------------------------------------
  // decimal numbers

  function DigitChar(d: nat): (c: char)
    requires d < 10
    ensures IsDigit(c)
  {
    ('0' as int + d) as char
  }

  function DigitValue(c: char): (d: nat)
    requires IsDigit(c)
    ensures d < 10 && DigitChar(d) == c
  {
    (c as int - '0' as int) as nat
  }

  /** The value of a run of ASCII digits (leading zeros allowed). */
  function DigitsValue(s: string): nat
    requires AllDigits(s)
  {
    if s == [] then 0 else DigitsValue(s[..|s| - 1]) * 10 + DigitValue(s[|s| - 1])
  }

  /** `f"{n}"` for a non-negative integer. */
  function NatToString(n: nat): (r: string)
    ensures r != [] && AllDigits(r)
    ensures '-' !in r && ',' !in r
    ensures |r| > 1 ==> r[0] != '0'
  {
    if n < 10 then [DigitChar(n)] else NatToString(n / 10) + [DigitChar(n % 10)]
  }

  /** `f"{i}"` for any integer. */
  function IntToString(i: int): (r: string)
    ensures r != [] && ',' !in r
  {
    if i < 0 then ['-'] + NatToString(-i) else NatToString(i)
  }

  lemma {:induction false} NatToStringValue(n: nat)
    ensures DigitsValue(NatToString(n)) == n
  {
    var r := NatToString(n);
    if n >= 10 {
      NatToStringValue(n / 10);
      assert r[..|r| - 1] == NatToString(n / 10);
    }
  }

  lemma DigitNotSpace(c: char)
    requires IsDigit(c)
    ensures !IsSpace(c)
  {
  }

  /** The rendering of a number is its own `strip()`. */
  lemma NatToStringStripped(n: nat)
    ensures Strip(NatToString(n)) == NatToString(n)
  {
    var r := NatToString(n);
    DigitNotSpace(r[0]);
    DigitNotSpace(r[|r| - 1]);
    StripNoSpace(r);
  }

  /** Decimal rendering is injective. */
  lemma NatToStringInjective(m: nat, n: nat)
    requires NatToString(m) == NatToString(n)
    ensures m == n
  {
    NatToStringValue(m);
    NatToStringValue(n);
  }

  /** Python's `int(s)` on a string: surrounding whitespace, an optional sign
      and a non-empty run of ASCII digits; anything else is `None`, for the
      ValueError. Python also accepts `_` between digits; the model does not. */
  function ParseInt(s: string): (r: Option<int>)
    ensures r.Some? ==> Strip(s) != [] && IsDigit(Strip(s)[|Strip(s)| - 1])
    ensures r.Some? && r.value < 0 ==> Strip(s)[0] == '-'
  {
    ParseSigned(Strip(s))
  }

  function ParseSigned(t: string): (r: Option<int>)
    ensures r.Some? ==> t != [] && IsDigit(t[|t| - 1])
    ensures r.Some? && r.value < 0 ==> t[0] == '-'
  {
    if t == [] then None
    else if t[0] == '-' then
      match ParseUnsigned(t[1..])
      case Some(v) => Some(-v)
      case None => None
    else if t[0] == '+' then ParseUnsigned(t[1..])
    else ParseUnsigned(t)
  }

  function ParseUnsigned(b: string): Option<int> {
    if b != [] && AllDigits(b) then Some(DigitsValue(b)) else None
  }

  /** A non-empty run of digits parses as its value. */
  lemma ParseSignedDigits(r: string)
    requires r != [] && AllDigits(r)
    ensures ParseSigned(r) == Some(DigitsValue(r))
  {
    assert IsDigit(r[0]);
  }

  /** `int(f"{n}") == n`. */
  lemma ParseIntOfNat(n: nat)
    ensures ParseInt(NatToString(n)) == Some(n)
  {
    NatToStringStripped(n);
    NatToStringValue(n);
    ParseSignedDigits(NatToString(n));
  }

  /** `int("-" + digits)` is the negated value of the digits. */
  lemma ParseIntNegative(d: string)
    requires d != [] && AllDigits(d)
    ensures ParseInt(['-'] + d) == Some(-(DigitsValue(d) as int))
  {
    var s := ['-'] + d;
    DigitNotSpace(d[|d| - 1]);
    assert s[|s| - 1] == d[|d| - 1];
    StripNoSpace(s);
    assert s[1..] == d;
  }

  /** Every integer Python's `int()` returns is rendered back by `f"{...}"`
      up to leading zeros, a `+` and whitespace; a string of digits without
      leading zeros is exactly the rendering of its value. */
  lemma {:induction false} CanonicalDigits(s: string)
    requires s != [] && AllDigits(s)
    requires |s| > 1 ==> s[0] != '0'
    ensures NatToString(DigitsValue(s)) == s
  {
    var n := DigitsValue(s);
    if |s| == 1 {
    } else {
      var p := s[..|s| - 1];
      assert p != [] && AllDigits(p) && (|p| > 1 ==> p[0] != '0');
      CanonicalDigits(p);
      PositiveWithoutLeadingZero(p);
      assert n / 10 == DigitsValue(p) && n % 10 == DigitValue(s[|s| - 1]);
      assert s == p + [s[|s| - 1]];
    }
  }

  lemma {:induction false} PositiveWithoutLeadingZero(s: string)
    requires s != [] && AllDigits(s) && s[0] != '0'
    ensures DigitsValue(s) >= 1
  {
    if |s| > 1 {
      PositiveWithoutLeadingZero(s[..|s| - 1]);
    }
  }

  // ---------------------------------------------------------------------
  // runs of digits

  /** The longest prefix of `s` made of ASCII digits. */
  function DigitPrefix(s: string): (r: string)
    ensures AllDigits(r) && |r| <= |s| && r == s[..|r|]
    ensures |r| < |s| ==> !IsDigit(s[|r|])
  {
    if s == [] || !IsDigit(s[0]) then [] else [s[0]] + DigitPrefix(s[1..])
  }

  /** `re.search(r"(\d+)", s).group(1)`: the first maximal run of digits,
      `None` when there is no digit at all. */
  function FirstDigitRun(s: string): (r: Option<string>)
    ensures r.Some? ==> r.value != [] && AllDigits(r.value)
    ensures r.None? <==> forall i :: 0 <= i < |s| ==> !IsDigit(s[i])
  {
    if s == [] then None
    else if IsDigit(s[0]) then Some(DigitPrefix(s))
    else FirstDigitRun(s[1..])
  }

  lemma {:induction false} DigitPrefixOf(d: string, q: string)
    requires AllDigits(d) && (q == [] || !IsDigit(q[0]))
    ensures DigitPrefix(d + q) == d
  {
    if d != [] {
      assert (d + q)[1..] == d[1..] + q;
      DigitPrefixOf(d[1..], q);
      assert [d[0]] + d[1..] == d;
    }
  }

  /** The digits following a digit-free text and stopped by a non-digit are
      the first run of digits. */
  lemma {:induction false} FirstDigitRunOf(p: string, d: string, q: string)
    requires forall i :: 0 <= i < |p| ==> !IsDigit(p[i])
    requires d != [] && AllDigits(d) && (q == [] || !IsDigit(q[0]))
    ensures FirstDigitRun(p + d + q) == Some(d)
  {
    if p == [] {
      assert p + d + q == d + q;
      DigitPrefixOf(d, q);
    } else {
      assert (p + d + q)[1..] == p[1..] + d + q;
      FirstDigitRunOf(p[1..], d, q);
    }
  }

  // ---------------------------------------------------------------------
  // regular-expression substitution of a character class

  /** `re.sub(r"[class]+", [with], s)`: every maximal run of characters of
      the class becomes one `with` character. */
  function ReplaceRuns(s: string, inClass: char -> bool, with: char): (r: string)
    ensures forall i :: 0 <= i < |r| && inClass(r[i]) ==> r[i] == with
    ensures forall i :: 0 <= i < |r| - 1 ==> !(inClass(r[i]) && inClass(r[i + 1]))
    ensures s != [] && !inClass(s[0]) ==> r != [] && r[0] == s[0]
    ensures |r| <= |s|
  {
    if s == [] then []
    else if inClass(s[0]) then [with] + ReplaceRuns(LStripBy(s, inClass), inClass, with)
    else [s[0]] + ReplaceRuns(s[1..], inClass, with)
  }

  /** With a replacement outside the class, no character of the class is
      left. */
  lemma ReplaceRunsClears(s: string, inClass: char -> bool, with: char)
    requires !inClass(with)
    ensures forall i :: 0 <= i < |ReplaceRuns(s, inClass, with)| ==> !inClass(ReplaceRuns(s, inClass, with)[i])
  {
  }

  /** A string with nothing to substitute is left as it is. */
  lemma {:induction false} ReplaceRunsNone(s: string, inClass: char -> bool, with: char)
    requires forall i :: 0 <= i < |s| ==> !inClass(s[i])
    ensures ReplaceRuns(s, inClass, with) == s
  {
    if s != [] {
      ReplaceRunsNone(s[1..], inClass, with);
      assert [s[0]] + s[1..] == s;
    }
  }

  /** Characters distinct from the replacement are kept by the
      substitution: no character is invented. */
  lemma {:induction false} ReplaceRunsChars(s: string, inClass: char -> bool, with: char, c: char)
    requires c in ReplaceRuns(s, inClass, with)
    ensures c == with || c in s
  {
    if s != [] {
      if inClass(s[0]) {
        var t := LStripBy(s, inClass);
        if c != with {
          ReplaceRunsChars(t, inClass, with, c);
          assert forall x :: x in t ==> x in s;
        }
      } else if c != s[0] {
        ReplaceRunsChars(s[1..], inClass, with, c);
      }
    }
  }

  // ---------------------------------------------------------------------
  // float() on decimal notation

  /** `10^n`. */
  function Pow10(n: nat): (r: nat)
    ensures r >= 1
  {
    if n == 0 then 1 else 10 * Pow10(n - 1)
  }

  /** `float()` on an unsigned decimal `digits[.digits]` with at least one
      digit. */
  function ParseUnsignedDecimal(b: string): (r: Option<real>)
    ensures r.Some? ==> r.value >= 0.0
  {
    if '.' in b then
      var (i, f) := SplitFirst(b, '.');
      if AllDigits(i) && AllDigits(f) && i + f != [] then
        Some(DigitsValue(i) as real + DigitsValue(f) as real / Pow10(|f|) as real)
      else None
    else if b != [] && AllDigits(b) then Some(DigitsValue(b) as real)
    else None
  }

  /** `float(s)` for plain decimal notation: surrounding whitespace is
      ignored and a sign is allowed; `None` where `float()` raises. The
      forms `float()` accepts beyond that (an exponent, `inf`, `nan`, `_`
      between digits) are `None` here too. */
  function ParseDecimal(s: string): (r: Option<real>)
    ensures r.Some? ==> Strip(s) != []
    ensures r.Some? && r.value < 0.0 ==> Strip(s)[0] == '-'
  {
    var t := Strip(s);
    if t != [] && (t[0] == '-' || t[0] == '+') then
      var v := ParseUnsignedDecimal(t[1..]);
      if v.None? then None else Some(if t[0] == '-' then -v.value else v.value)
    else ParseUnsignedDecimal(t)
  }

  /** `float()` reads a plain digit string as its value. */
  lemma DecimalOfNat(n: nat)
    ensures ParseDecimal(NatToString(n)) == Some(n as real)
  {
    NatToStringStripped(n);
    NatToStringValue(n);
    var s := NatToString(n);
    assert '.' !in s;
    assert IsDigit(s[0]);
  }

  /** A suffix of a sequence is its first element and the rest. */
  lemma SliceCons<T>(s: seq<T>, i: nat)
    requires i < |s|
    ensures s[i..] == [s[i]] + s[i + 1..]
  {
  }

  /** Past the head, an element of `[x] + s` is an element of `s`. */
  lemma ConsAt<T>(x: T, s: seq<T>, k: nat)
    requires 0 < k <= |s|
    ensures ([x] + s)[k] == s[k - 1]
  {
  }

  /** The head and the tail of a suffix. */
  lemma SliceTail<T>(s: seq<T>, i: nat)
    requires i < |s|
    ensures s[i..][0] == s[i] && s[i..][1..] == s[i + 1..]
  {
  }
}
