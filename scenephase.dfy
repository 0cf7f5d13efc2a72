/**
 analysis/derive_scene_phase.py: scene lengths in seconds, the code tags
 of each scene and the phase of a scene from its rank within its
 institution.
 */
module ScenePhase {
  import opened Text
  import Phase

  // ---------------------------------------------------------------------
  // parse_time_to_seconds

  /** `s.replace(a, b)` for single characters. */
  function ReplaceChar(s: string, a: char, b: char): (r: string)
    ensures |r| == |s|
  {
    if s == [] then [] else [if s[0] == a then b else s[0]] + ReplaceChar(s[1..], a, b)
  }

  /** The non-empty parts of `re.split(r"[^0-9]+", s)`: the maximal runs
      of digits, in order. */
  function DigitRuns(s: string): (r: seq<string>)
    ensures forall k :: 0 <= k < |r| ==> r[k] != [] && AllDigits(r[k])
    decreases |s|
  {
    if s == [] then []
    else if IsDigit(s[0]) then
      var d := DigitPrefix(s);
      [d] + DigitRuns(s[|d|..])
    else DigitRuns(s[1..])
  }

  /** The seconds of the parts' values: `s`, `mm:ss` or `hh:mm:ss`, where
      parts after the third are ignored. */
  function Seconds(nums: seq<nat>): nat
    requires nums != []
  {
    if |nums| == 1 then nums[0]
    else if |nums| == 2 then nums[0] * 60 + nums[1]
    else nums[0] * 3600 + nums[1] * 60 + nums[2]
  }

  function Values(parts: seq<string>): (r: seq<nat>)
    requires forall k :: 0 <= k < |parts| ==> AllDigits(parts[k])
    ensures |r| == |parts|
    ensures forall k :: 0 <= k < |parts| ==> r[k] == DigitsValue(parts[k])
  {
    if parts == [] then [] else [DigitsValue(parts[0])] + Values(parts[1..])
  }

  /** `parse_time_to_seconds(s)` (lines 39-53), `None` standing for NaN. */
  function ParseTimeToSeconds(x: Option<string>): (r: Option<nat>)
    ensures r.Some? ==> x.Some?
  {
    if x.None? then None
    else
      var parts := DigitRuns(ReplaceChar(Strip(x.value), ',', ':'));
      if parts == [] then None else Some(Seconds(Values(parts)))
  }

  lemma {:induction false} RunThenRest(d: string, c: char, rest: string)
    requires d != [] && AllDigits(d) && !IsDigit(c)
    ensures DigitRuns(d + [c] + rest) == [d] + DigitRuns(rest)
  {
    var s := d + [c] + rest;
    DigitPrefixOf(d, [c] + rest);
    assert s == d + ([c] + rest);
    assert s[|d|..] == [c] + rest;
    assert ([c] + rest)[1..] == rest;
  }

  lemma RunAlone(d: string)
    requires d != [] && AllDigits(d)
    ensures DigitRuns(d) == [d]
  {
    DigitPrefixOf(d, []);
    assert d + [] == d;
    assert d[|d|..] == [];
  }

  /** A text of digit runs with a digit at both ends needs no strip and,
      without a comma, no replacement. */
  lemma Unchanged(s: string)
    requires s != [] && IsDigit(s[0]) && IsDigit(s[|s| - 1]) && ',' !in s
    ensures ReplaceChar(Strip(s), ',', ':') == s
  {
    DigitNotSpace(s[0]);
    DigitNotSpace(s[|s| - 1]);
    StripNoSpace(s);
    ReplaceAbsent(s, ',', ':');
  }

  lemma {:induction false} ReplaceCharIn(s: string, a: char, b: char)
    ensures forall x :: x in ReplaceChar(s, a, b) ==> x in s || x == b
  {
    if s != [] {
      ReplaceCharIn(s[1..], a, b);
    }
  }

  lemma {:induction false} ReplaceAbsent(s: string, a: char, b: char)
    requires a !in s
    ensures ReplaceChar(s, a, b) == s
  {
    if s != [] {
      ReplaceAbsent(s[1..], a, b);
      assert [s[0]] + s[1..] == s;
    }
  }

  /** A text starting and ending with a digit and holding no comma is
      read from its digit runs as they are. */
  lemma TimeOfRuns(s: string, parts: seq<string>)
    requires TimeText(s, parts) && parts != []
    ensures var r := ParseTimeToSeconds(Some(s)); r.Some? && r.value == Seconds(Values(parts))
  {
    Unchanged(s);
  }

  /** `hh:mm:ss` of digit runs reads as `hh*3600 + mm*60 + ss`, leading
      zeros and all. */
  lemma Clock(h: string, m: string, sec: string)
    requires h != [] && m != [] && sec != [] && AllDigits(h) && AllDigits(m) && AllDigits(sec)
    ensures var r := ParseTimeToSeconds(Some(h + ":" + m + ":" + sec));
      r.Some? && r.value == DigitsValue(h) * 3600 + DigitsValue(m) * 60 + DigitsValue(sec)
  {
    ClockRuns(h, m, sec);
    TimeOfRuns(h + ":" + m + ":" + sec, [h, m, sec]);
    ThreeParts([h, m, sec]);
    assert [h, m, sec][0] == h && [h, m, sec][1] == m && [h, m, sec][2] == sec;
  }

  lemma ClockRuns(h: string, m: string, sec: string)
    requires h != [] && m != [] && sec != [] && AllDigits(h) && AllDigits(m) && AllDigits(sec)
    ensures TimeText(h + ":" + m + ":" + sec, [h, m, sec])
  {
    var t := m + ":" + sec;
    MinSecRuns(m, sec);
    assert h + ":" + m + ":" + sec == h + [':'] + t;
    RunsOf(h, ':', t, [h, m, sec]);
  }

  lemma MinSecRuns(m: string, sec: string)
    requires m != [] && sec != [] && AllDigits(m) && AllDigits(sec)
    ensures TimeText(m + ":" + sec, [m, sec])
  {
    RunAlone(sec);
    RunsOf(m, ':', sec, [m, sec]);
  }

  /** `mm:ss` reads as `mm*60 + ss`. */
  lemma MinutesSeconds(m: string, sec: string)
    requires m != [] && sec != [] && AllDigits(m) && AllDigits(sec)
    ensures var r := ParseTimeToSeconds(Some(m + ":" + sec));
      r.Some? && r.value == DigitsValue(m) * 60 + DigitsValue(sec)
  {
    MinSecRuns(m, sec);
    TimeOfRuns(m + ":" + sec, [m, sec]);
  }

  /** A plain run of digits reads as its value. */
  lemma PlainSeconds(sec: string)
    requires sec != [] && AllDigits(sec)
    ensures var r := ParseTimeToSeconds(Some(sec)); r.Some? && r.value == DigitsValue(sec)
  {
    RunAlone(sec);
    DigitNotComma(sec);
    assert TimeText(sec, [sec]);
    TimeOfRuns(sec, [sec]);
  }

  /** Parts beyond the third, such as the hundredths of `hh:mm:ss.ff`,
      are dropped. */
  lemma FractionIgnored(h: string, m: string, sec: string, f: string)
    requires h != [] && m != [] && sec != [] && f != []
    requires AllDigits(h) && AllDigits(m) && AllDigits(sec) && AllDigits(f)
    ensures var r := ParseTimeToSeconds(Some(h + ":" + m + ":" + sec + "." + f));
      r.Some? && r.value == DigitsValue(h) * 3600 + DigitsValue(m) * 60 + DigitsValue(sec)
  {
    var s := h + ":" + m + ":" + sec + "." + f;
    FractionRuns(h, m, sec, f);
    TimeOfRuns(s, [h, m, sec, f]);
    ThreeParts([h, m, sec, f]);
    assert [h, m, sec, f][0] == h && [h, m, sec, f][1] == m && [h, m, sec, f][2] == sec;
  }

  lemma FractionRuns(h: string, m: string, sec: string, f: string)
    requires h != [] && m != [] && sec != [] && f != []
    requires AllDigits(h) && AllDigits(m) && AllDigits(sec) && AllDigits(f)
    ensures TimeText(h + ":" + m + ":" + sec + "." + f, [h, m, sec, f])
  {
    var t := m + ":" + sec + "." + f;
    assert TimeText(t, [m, sec, f]) by {
      TailRuns(m, sec, f);
    }
    assert h + ":" + m + ":" + sec + "." + f == h + [':'] + t;
    RunsOf(h, ':', t, [h, m, sec, f]);
  }

  lemma TailRuns(m: string, sec: string, f: string)
    requires m != [] && sec != [] && f != []
    requires AllDigits(m) && AllDigits(sec) && AllDigits(f)
    ensures TimeText(m + ":" + sec + "." + f, [m, sec, f])
  {
    var t := sec + "." + f;
    assert TimeText(t, [sec, f]) by {
      RunAlone(f);
      RunsOf(sec, '.', f, [sec, f]);
    }
    assert m + ":" + sec + "." + f == m + [':'] + t;
    RunsOf(m, ':', t, [m, sec, f]);
  }

  /** A text with a digit at both ends, no comma and the given runs. */
  predicate TimeText(s: string, runs: seq<string>) {
    s != [] && IsDigit(s[0]) && IsDigit(s[|s| - 1]) && ',' !in s && DigitRuns(s) == runs
  }

  /** A run of digits, a separator and a rest with digits at both ends
      and no comma: the runs are the first one and those of the rest. */
  lemma RunsOf(d: string, c: char, rest: string, runs: seq<string>)
    requires d != [] && AllDigits(d) && c != ',' && !IsDigit(c)
    requires rest != [] && IsDigit(rest[0]) && IsDigit(rest[|rest| - 1]) && ',' !in rest
    requires runs != [] && runs[0] == d && DigitRuns(rest) == runs[1..]
    ensures TimeText(d + [c] + rest, runs)
  {
    RunsEq(d, c, rest, runs);
    DigitNotComma(d);
    ConcatEnds(d, c, rest);
  }

  lemma RunsEq(d: string, c: char, rest: string, runs: seq<string>)
    requires d != [] && AllDigits(d) && !IsDigit(c)
    requires runs != [] && runs[0] == d && DigitRuns(rest) == runs[1..]
    ensures DigitRuns(d + [c] + rest) == runs
  {
    RunThenRest(d, c, rest);
    assert [d] + runs[1..] == runs;
  }

  lemma ConcatEnds(d: string, c: char, rest: string)
    requires d != [] && rest != [] && ',' !in d && c != ',' && ',' !in rest
    ensures var s := d + [c] + rest; s[0] == d[0] && s[|s| - 1] == rest[|rest| - 1] && ',' !in s
  {
    var s := d + [c] + rest;
    assert s == d + ([c] + rest);
    assert ',' !in [c] + rest;
  }

  /** From three parts on, the first three are hours, minutes and seconds. */
  lemma ThreeParts(parts: seq<string>)
    requires |parts| >= 3
    requires forall k :: 0 <= k < |parts| ==> AllDigits(parts[k])
    ensures Seconds(Values(parts)) == DigitsValue(parts[0]) * 3600 + DigitsValue(parts[1]) * 60 + DigitsValue(parts[2])
  {
    var nums := Values(parts);
    assert Seconds(nums) == nums[0] * 3600 + nums[1] * 60 + nums[2];
    assert nums[0] == DigitsValue(parts[0]) && nums[1] == DigitsValue(parts[1]) && nums[2] == DigitsValue(parts[2]);
  }

  lemma DigitNotComma(d: string)
    requires AllDigits(d)
    ensures ',' !in d
  {
  }

  lemma {:induction false} NoDigitsNoRuns(s: string)
    requires forall i :: 0 <= i < |s| ==> !IsDigit(s[i])
    ensures DigitRuns(s) == []
    decreases |s|
  {
    if s != [] {
      NoDigitsNoRuns(s[1..]);
    }
  }

  /** A text without a digit has no length. */
  lemma NoDigitsNoTime(s: string)
    requires forall i :: 0 <= i < |s| ==> !IsDigit(s[i])
    ensures ParseTimeToSeconds(Some(s)).None?
  {
    var t := ReplaceChar(Strip(s), ',', ':');
    StripIn(s);
    ReplaceCharIn(Strip(s), ',', ':');
    forall i | 0 <= i < |t| ensures !IsDigit(t[i]) {
      assert t[i] in t;
    }
    NoDigitsNoRuns(t);
  }

  // ---------------------------------------------------------------------
  // the code tags of a scene (lines 57-70)

  predicate TagChar(c: char) { ('a' <= c <= 'z') || IsDigit(c) || c == '_' }

  /** `re.match(r"(?i)code_[a-z0-9_]+", t)`: `code_` in any case and at
      least one tag character after it; the rest of the token is free. */
  predicate CodePrefixed(t: string) {
    |t| >= 6 && Lower(t[..5]) == "code_" && TagChar(LowerChar(t[5]))
  }

  /** `re.match(r"^[a-z][a-z0-9_]+$", t)` on a stripped token. */
  predicate ShortTag(t: string) {
    |t| >= 2 && 'a' <= t[0] <= 'z' && forall i :: 1 <= i < |t| ==> TagChar(t[i])
  }

  /** The spurious placeholders, compared in lower case. */
  predicate Placeholder(t: string) {
    var l := Lower(t);
    l == "nan" || l == "none" || l == "null" || l == ""
  }

  predicate Kept(t: string) {
    (CodePrefixed(t) || ShortTag(t)) && !Placeholder(t)
  }

  /** `s.replace(c, '')`. */
  function RemoveChar(s: string, c: char): (r: string)
    ensures c !in r
    ensures forall x :: x in r ==> x in s
  {
    if s == [] then [] else (if s[0] == c then [] else [s[0]]) + RemoveChar(s[1..], c)
  }

  /** Every token stripped. */
  function StripAll(ts: seq<string>): (r: seq<string>)
    ensures |r| == |ts|
    ensures forall k :: 0 <= k < |ts| ==> r[k] == Strip(ts[k])
  {
    if ts == [] then [] else [Strip(ts[0])] + StripAll(ts[1..])
  }

  /** The tokens that pass the tag-like mask and are no placeholder. */
  function KeepTags(ts: seq<string>): (r: seq<string>)
    ensures forall t :: t in r ==> t in ts && Kept(t)
    ensures forall t :: t in ts && Kept(t) ==> t in r
  {
    if ts == [] then [] else (if Kept(ts[0]) then [ts[0]] else []) + KeepTags(ts[1..])
  }

  /** The tags of one `codes_raw` cell: quotes removed, stripped, split at
      commas with the whitespace around them, filtered. */
  function CodeTags(raw: string): (r: seq<string>)
    ensures forall t :: t in r ==> Kept(t)
  {
    KeepTags(StripAll(Split(Strip(RemoveChar(raw, '"')), ',')))
  }

  /** Every tag out is a stripped, comma- and quote-free token of the
      cell that looks like a tag and is no placeholder. */
  lemma TagsClean(raw: string)
    ensures forall t :: t in CodeTags(raw) ==>
      Kept(t) && ',' !in t && '"' !in t && StripAll([t]) == [Strip(t)]
  {
    var tokens := StripAll(Split(Strip(RemoveChar(raw, '"')), ','));
    var q := Strip(RemoveChar(raw, '"'));
    StripIn(RemoveChar(raw, '"'));
    forall t | t in CodeTags(raw) ensures ',' !in t && '"' !in t {
      var k :| 0 <= k < |tokens| && tokens[k] == t;
      var piece := Split(q, ',')[k];
      StripIn(piece);
      if '"' in t {
        JoinPieceChars(q, k, '"');
      }
    }
  }

  /** A character of a piece of `Split(s, sep)` is a character of `s`. */
  lemma {:induction false} JoinPieceChars(s: string, k: nat, c: char)
    requires k < |Split(s, ',')| && c in Split(s, ',')[k]
    ensures c in s
    decreases |s|
  {
    if s != [] {
      if s[0] == ',' {
        if k > 0 {
          assert Split(s, ',')[k] == Split(s[1..], ',')[k - 1];
          JoinPieceChars(s[1..], k - 1, c);
        }
      } else {
        var rest := Split(s[1..], ',');
        if k == 0 {
          if c != s[0] {
            assert c in rest[0];
            JoinPieceChars(s[1..], 0, c);
          }
        } else {
          assert Split(s, ',')[k] == rest[k];
          JoinPieceChars(s[1..], k, c);
        }
      }
    }
  }

  /** A cell written as the comma-joined tags, each already a kept token
      without whitespace, comma or quote, yields those tags. */
  lemma CodeTagsRoundTrip(tags: seq<string>)
    requires tags != []
    requires forall k :: 0 <= k < |tags| ==> PlainTag(tags[k])
    ensures CodeTags(Join(tags, ',')) == tags
  {
    var cell := Join(tags, ',');
    JoinPlain(tags);
    RemoveAbsent(cell, '"');
    StripNoSpace(cell);
    SplitJoin(tags, ',');
    StripAllPlain(tags);
    KeepAllPlain(tags);
  }

  /** A tag as a clean cell writes it. */
  predicate PlainTag(t: string) {
    Kept(t) && forall i :: 0 <= i < |t| ==> !IsSpace(t[i]) && t[i] != ',' && t[i] != '"'
  }

  lemma {:induction false} JoinPlain(tags: seq<string>)
    requires tags != []
    requires forall k :: 0 <= k < |tags| ==> PlainTag(tags[k])
    ensures var c := Join(tags, ','); c != [] && !IsSpace(c[0]) && !IsSpace(c[|c| - 1]) && '"' !in c
    ensures forall k :: 0 <= k < |tags| ==> ',' !in tags[k]
    decreases |tags|
  {
    var c := Join(tags, ',');
    if |tags| == 1 {
      assert c == tags[0];
    } else {
      JoinPlain(tags[1..]);
      var rest := Join(tags[1..], ',');
      assert c == tags[0] + [','] + rest;
      assert c[0] == tags[0][0];
      assert c[|c| - 1] == rest[|rest| - 1];
      assert forall k :: 1 <= k < |tags| ==> tags[k] == tags[1..][k - 1];
    }
  }

  lemma {:induction false} RemoveAbsent(s: string, c: char)
    requires c !in s
    ensures RemoveChar(s, c) == s
  {
    if s != [] {
      RemoveAbsent(s[1..], c);
      assert [s[0]] + s[1..] == s;
    }
  }

  lemma {:induction false} StripAllPlain(tags: seq<string>)
    requires forall k :: 0 <= k < |tags| ==> PlainTag(tags[k])
    ensures StripAll(tags) == tags
  {
    forall k | 0 <= k < |tags| ensures Strip(tags[k]) == tags[k] {
      StripNoSpace(tags[k]);
    }
  }

  lemma {:induction false} KeepAllPlain(tags: seq<string>)
    requires forall k :: 0 <= k < |tags| ==> PlainTag(tags[k])
    ensures KeepTags(tags) == tags
    decreases |tags|
  {
    if tags != [] {
      KeepAllPlain(tags[1..]);
      assert [tags[0]] + tags[1..] == tags;
    }
  }

  // ---------------------------------------------------------------------
  // assign_phase (lines 81-91)

  /** The slack `1e-9` the thresholds allow. */
  const Eps: real := 0.000000001

  /** `assign_phase` of the scene ranked `k` of an institution with `n`
      ranked scenes; the position `k / n` is computed exactly. */
  function PhaseOf(n: nat, k: nat): (p: Phase.Phase)
    ensures k == 1 ==> p == Phase.Early
    ensures 3 <= n && k == n ==> p == Phase.Late
  {
    if n <= 1 then Phase.Early
    else if n == 2 then (if k == 1 then Phase.Early else Phase.Middle)
    else if (k as real) / (n as real) <= 1.0 / 3.0 + Eps then Phase.Early
    else if (k as real) / (n as real) <= 2.0 / 3.0 + Eps then Phase.Middle
    else Phase.Late
  }

  /** Below a hundred million scenes the slack never moves a boundary:
      `k / n <= j / 3 + Eps` holds exactly when `3k <= jn`. */
  lemma Threshold(n: nat, k: nat, j: nat)
    requires 0 < n < 100000000
    ensures (k as real) / (n as real) <= (j as real) / 3.0 + Eps <==> 3 * k <= j * n
  {
    var x, nr := (k as real) / (n as real), n as real;
    assert x * nr == k as real;
    assert nr * Eps < 0.1;
    if 3 * k <= j * n {
      assert 3.0 * (k as real) <= (j as real) * nr;
      assert x <= (j as real) / 3.0;
    } else {
      assert 3.0 * (k as real) >= (j as real) * nr + 1.0;
      assert 3.0 * x * nr >= (j as real) * nr + 1.0;
      assert 3.0 * nr * (x - (j as real) / 3.0) >= 1.0;
      assert x - (j as real) / 3.0 > Eps;
    }
  }

  /** From three scenes on, a scene is Early up to the first third of the
      ranks, Middle up to two thirds and Late after. */
  lemma ExactThirds(n: nat, k: nat)
    requires 3 <= n < 100000000
    ensures PhaseOf(n, k) == Phase.Early <==> 3 * k <= n
    ensures PhaseOf(n, k) == Phase.Middle <==> n < 3 * k <= 2 * n
    ensures PhaseOf(n, k) == Phase.Late <==> 2 * n < 3 * k
  {
    Threshold(n, k, 1);
    Threshold(n, k, 2);
  }

  /** Up to three scenes, and whenever the count is a multiple of three,
      this script and `analysis/phase.py` give each scene the same phase. */
  lemma ScriptsAgree(n: nat, i: nat)
    requires 1 <= i <= n < 100000000
    requires n <= 3 || n % 3 == 0
    ensures PhaseOf(n, i) == Phase.AssignPhase(n, i)
  {
    if n >= 3 {
      ExactThirds(n, i);
      if n > 3 {
        Phase.Terciles(n, i);
      }
    }
  }

  /** Otherwise they disagree: the scene at rank `ceil(n/3)` is Early for
      `analysis/phase.py` and Middle here. */
  lemma ScriptsDisagree(n: nat)
    requires 4 <= n < 100000000 && n % 3 != 0
    ensures 1 <= Phase.CeilThird(n) <= n
    ensures PhaseOf(n, Phase.CeilThird(n)) == Phase.Middle
    ensures Phase.AssignPhase(n, Phase.CeilThird(n)) == Phase.Early
  {
    var c := Phase.CeilThird(n);
    ExactThirds(n, c);
    Phase.Terciles(n, c);
  }
}
