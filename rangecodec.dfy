/**
 The continuation-range notation of `autocode.py`: `compress_ints` turns a
 list of scene numbers into comma-separated maximal runs (`2-4,6,8-9`) and
 `expand_range_str` turns such a string back into the list.
 */
module RangeCodec {
  import opened Text
  import opened Sorting

  /** A run of consecutive integers `lo, lo+1, ..., hi`. */
  datatype Run = Run(lo: int, hi: int)

  /** Python's `list(range(a, b + 1))`: empty when `a > b`. */
  function Range(a: int, b: int): (r: seq<int>)
    decreases b - a
    ensures |r| == if a <= b then b - a + 1 else 0
    ensures forall k :: 0 <= k < |r| ==> r[k] == a + k
  {
    if a > b then [] else [a] + Range(a + 1, b)
  }

  /** One run as `compress_ints` writes it: `a-b`, or `a` for a singleton. */
  function RunToken(r: Run): string {
    if r.lo != r.hi then IntToString(r.lo) + ['-'] + IntToString(r.hi) else IntToString(r.lo)
  }

  function Tokens(runs: seq<Run>): (ts: seq<string>)
    ensures |ts| == |runs|
    ensures forall k :: 0 <= k < |runs| ==> ts[k] == RunToken(runs[k])
  {
    if runs == [] then [] else [RunToken(runs[0])] + Tokens(runs[1..])
  }

  lemma TokensAppend(a: seq<Run>, b: seq<Run>)
    ensures Tokens(a + b) == Tokens(a) + Tokens(b)
  {
  }

  /** The runs the scan of `compress_ints` produces from the open run
      `start..prev` and the numbers still to read. */
  function RunsFrom(start: int, prev: int, rest: seq<int>): seq<Run>
    decreases |rest|
  {
    if rest == [] then [Run(start, prev)]
    else if rest[0] == prev + 1 then RunsFrom(start, rest[0], rest[1..])
    else [Run(start, prev)] + RunsFrom(rest[0], rest[0], rest[1..])
  }

  function Runs(xs: seq<int>): seq<Run> {
    if xs == [] then [] else RunsFrom(xs[0], xs[0], xs[1..])
  }

  /** The numbers a list of runs covers, in order. */
  function Flatten(runs: seq<Run>): seq<int> {
    if runs == [] then [] else Range(runs[0].lo, runs[0].hi) + Flatten(runs[1..])
  }

  predicate Increasing(xs: seq<int>) {
    forall i, j :: 0 <= i < j < |xs| ==> xs[i] < xs[j]
  }

  predicate NonNegative(xs: seq<int>) {
    forall i :: 0 <= i < |xs| ==> xs[i] >= 0
  }

  /** Runs are non-empty, ascending and maximal: between two neighbouring
      runs at least one integer is missing. */
  predicate MaximalRuns(runs: seq<Run>) {
    && (forall k :: 0 <= k < |runs| ==> runs[k].lo <= runs[k].hi)
    && (forall k :: 0 <= k < |runs| - 1 ==> runs[k].hi + 1 < runs[k + 1].lo)
  }

  /** `compress_ints(nums)`: the maximal runs of `sorted(set(nums))`. */
  function Compress(nums: seq<int>): (s: string)
    ensures s == [] <==> nums == []
  {
    if nums == [] then ""
    else
      var sorted := SortedInts(nums);
      RunsFromShape(sorted[0], sorted[0], sorted[1..]);
      var runs := Runs(sorted);
      assert RunToken(runs[0]) != [];
      Join(Tokens(runs), ',')
  }

  // ---------------------------------------------------------------------
  // expansion

  /** One non-blank, stripped token of `expand_range_str`; `None` where
      Python's `int()` raises ValueError. */
  function ExpandToken(part: string): Option<seq<int>> {
    if '-' in part then
      var (a, b) := SplitFirst(part, '-');
      match (ParseInt(a), ParseInt(b))
      case (Some(x), Some(y)) => Some(Range(x, y))
      case _ => None
    else
      match ParseInt(part)
      case Some(x) => Some([x])
      case None => None
  }

  function Prepend(out: seq<int>, rest: Option<seq<int>>): Option<seq<int>> {
    match rest
    case Some(t) => Some(out + t)
    case None => None
  }

  /** The comma fields of `expand_range_str`, left to right: blank fields are
      skipped, the first malformed one aborts. */
  function ExpandParts(parts: seq<string>): Option<seq<int>> {
    if parts == [] then Some([])
    else
      var p := Strip(parts[0]);
      if p == [] then ExpandParts(parts[1..])
      else
        match ExpandToken(p)
        case None => None
        case Some(t) => Prepend(t, ExpandParts(parts[1..]))
  }

  /** `expand_range_str(rng)`. */
  function Expand(rng: string): Option<seq<int>> {
    if rng == [] then Some([]) else ExpandParts(Split(rng, ','))
  }

  // ---------------------------------------------------------------------
  // the two loops of autocode.py

  /** `compress_ints`, with the loop of the source. */
  method CompressInts(nums: seq<int>) returns (s: string)
    ensures s == Compress(nums)
  {
    if |nums| == 0 {
      return "";
    }
    var sorted := SortedInts(nums);
    var out: seq<string> := [];
    var start, prev := sorted[0], sorted[0];
    var i := 1;
    while i < |sorted|
      invariant 1 <= i <= |sorted|
      invariant out + Tokens(RunsFrom(start, prev, sorted[i..])) == Tokens(Runs(sorted))
    {
      var n := sorted[i];
      SliceCons(sorted, i);
      if n == prev + 1 {
        CompressExtend(out, start, prev, n, sorted[i + 1..], Tokens(Runs(sorted)));
        prev := n;
      } else {
        CompressBreak(out, start, prev, n, sorted[i + 1..], Tokens(Runs(sorted)));
        out := out + [RunToken(Run(start, prev))];
        start, prev := n, n;
      }
      i := i + 1;
    }
    CompressEnd(out, start, prev, sorted[i..], Tokens(Runs(sorted)));
    out := out + [RunToken(Run(start, prev))];
    s := Join(out, ',');
  }

  /** A number one past the open run extends it. */
  lemma CompressExtend(out: seq<string>, start: int, prev: int, n: int, rest: seq<int>, whole: seq<string>)
    requires n == prev + 1 && out + Tokens(RunsFrom(start, prev, [n] + rest)) == whole
    ensures out + Tokens(RunsFrom(start, n, rest)) == whole
  {
    assert ([n] + rest)[0] == n && ([n] + rest)[1..] == rest;
  }

  /** Any other number closes the open run and opens a new one. */
  lemma CompressBreak(out: seq<string>, start: int, prev: int, n: int, rest: seq<int>, whole: seq<string>)
    requires n != prev + 1 && out + Tokens(RunsFrom(start, prev, [n] + rest)) == whole
    ensures (out + [RunToken(Run(start, prev))]) + Tokens(RunsFrom(n, n, rest)) == whole
  {
    assert ([n] + rest)[0] == n && ([n] + rest)[1..] == rest;
    TokensAppend([Run(start, prev)], RunsFrom(n, n, rest));
  }

  lemma CompressEnd(out: seq<string>, start: int, prev: int, rest: seq<int>, whole: seq<string>)
    requires rest == [] && out + Tokens(RunsFrom(start, prev, rest)) == whole
    ensures out + [RunToken(Run(start, prev))] == whole
  {
  }

  /** `expand_range_str`, with the loop of the source. */
  method ExpandRangeStr(rng: string) returns (r: Option<seq<int>>)
    ensures r == Expand(rng)
  {
    if rng == "" {
      return Some([]);
    }
    var parts := Split(rng, ',');
    var out: seq<int> := [];
    var i := 0;
    assert parts[0..] == parts;
    PrependNil(ExpandParts(parts));
    while i < |parts|
      invariant 0 <= i <= |parts|
      invariant ExpandParts(parts) == Prepend(out, ExpandParts(parts[i..]))
    {
      var part := Strip(parts[i]);
      if part == "" {
        ExpandPartsBlank(parts, i, out);
        i := i + 1;
        continue;
      }
      ExpandPartsStep(parts, i, out);
      if '-' in part {
        var (a, b) := SplitFirst(part, '-');
        var x := ParseInt(a);
        var y := ParseInt(b);
        if x.None? || y.None? {
          return None;
        }
        out := out + Range(x.value, y.value);
      } else {
        var x := ParseInt(part);
        if x.None? {
          return None;
        }
        out := out + [x.value];
      }
      i := i + 1;
    }
    assert parts[i..] == [];
    assert out + [] == out;
    r := Some(out);
  }

  lemma PrependNil(rest: Option<seq<int>>)
    ensures Prepend([], rest) == rest
  {
    match rest
    case None =>
    case Some(v) => assert [] + v == v;
  }

  /** A blank field contributes nothing. */
  lemma ExpandPartsBlank(parts: seq<string>, i: nat, out: seq<int>)
    requires i < |parts| && Strip(parts[i]) == []
    ensures Prepend(out, ExpandParts(parts[i..])) == Prepend(out, ExpandParts(parts[i + 1..]))
  {
    assert parts[i..][1..] == parts[i + 1..];
  }

  /** A non-blank field either aborts or appends its numbers. */
  lemma ExpandPartsStep(parts: seq<string>, i: nat, out: seq<int>)
    requires i < |parts| && Strip(parts[i]) != []
    ensures Prepend(out, ExpandParts(parts[i..])) ==
      match ExpandToken(Strip(parts[i]))
      case None => None
      case Some(t) => Prepend(out + t, ExpandParts(parts[i + 1..]))
  {
    assert parts[i..][1..] == parts[i + 1..];
    match ExpandToken(Strip(parts[i]))
    case None =>
    case Some(t) => PrependAppend(out, t, ExpandParts(parts[i + 1..]));
  }

  lemma PrependAppend(out: seq<int>, t: seq<int>, rest: Option<seq<int>>)
    ensures Prepend(out, Prepend(t, rest)) == Prepend(out + t, rest)
  {
    match rest
    case None =>
    case Some(v) => assert out + (t + v) == (out + t) + v;
  }

  // ---------------------------------------------------------------------
  // properties

  /** Every run the scan produces is non-empty and starts at `start` or at a
      number it read. */
  lemma {:induction false} RunsFromShape(start: int, prev: int, rest: seq<int>)
    requires start <= prev
    decreases |rest|
    ensures var runs := RunsFrom(start, prev, rest);
      && runs != [] && runs[0].lo == start
      && forall k :: 0 <= k < |runs| ==> runs[k].lo <= runs[k].hi && (runs[k].lo == start || runs[k].lo in rest)
  {
    if rest != [] {
      if rest[0] == prev + 1 {
        RunsFromShape(start, rest[0], rest[1..]);
      } else {
        RunsFromShape(rest[0], rest[0], rest[1..]);
        var tail := RunsFrom(rest[0], rest[0], rest[1..]);
        var runs := [Run(start, prev)] + tail;
        forall k | 1 <= k < |runs| ensures runs[k].lo == start || runs[k].lo in rest {
          assert runs[k] == tail[k - 1];
        }
      }
    }
  }

  /** On an ascending list the scan yields maximal runs. */
  lemma {:induction false} RunsFromMaximal(start: int, prev: int, rest: seq<int>)
    requires start <= prev
    requires Increasing(rest) && (rest != [] ==> prev < rest[0])
    decreases |rest|
    ensures MaximalRuns(RunsFrom(start, prev, rest))
  {
    RunsFromShape(start, prev, rest);
    if rest != [] {
      if rest[0] == prev + 1 {
        RunsFromMaximal(start, rest[0], rest[1..]);
      } else {
        var tail := RunsFrom(rest[0], rest[0], rest[1..]);
        RunsFromMaximal(rest[0], rest[0], rest[1..]);
        RunsFromShape(rest[0], rest[0], rest[1..]);
        var runs := [Run(start, prev)] + tail;
        assert runs == RunsFrom(start, prev, rest);
        forall k | 0 <= k < |runs| - 1 ensures runs[k].hi + 1 < runs[k + 1].lo {
          if k > 0 {
            assert runs[k] == tail[k - 1] && runs[k + 1] == tail[k];
          }
        }
      }
    }
  }

  lemma FlattenCons(r: Run, runs: seq<Run>)
    ensures Flatten([r] + runs) == Range(r.lo, r.hi) + Flatten(runs)
  {
    assert ([r] + runs)[1..] == runs;
  }

  lemma RangeSnoc(a: int, b: int)
    requires a <= b + 1
    ensures Range(a, b + 1) == Range(a, b) + [b + 1]
  {
  }

  /** The scan covers exactly the open run followed by the remaining
      numbers. */
  lemma {:induction false} RunsFromCover(start: int, prev: int, rest: seq<int>)
    requires start <= prev
    decreases |rest|
    ensures Flatten(RunsFrom(start, prev, rest)) == Range(start, prev) + rest
  {
    if rest == [] {
      FlattenCons(Run(start, prev), []);
    } else if rest[0] == prev + 1 {
      RunsFromCover(start, rest[0], rest[1..]);
      RangeSnoc(start, prev);
      assert rest == [rest[0]] + rest[1..];
    } else {
      RunsFromCover(rest[0], rest[0], rest[1..]);
      FlattenCons(Run(start, prev), RunsFrom(rest[0], rest[0], rest[1..]));
      assert Range(rest[0], rest[0]) == [rest[0]];
      assert rest == [rest[0]] + rest[1..];
    }
  }

  /** The runs of an ascending list are maximal and cover it exactly. */
  lemma RunsCorrect(xs: seq<int>)
    requires Increasing(xs)
    ensures MaximalRuns(Runs(xs))
    ensures Flatten(Runs(xs)) == xs
  {
    if xs != [] {
      RunsFromMaximal(xs[0], xs[0], xs[1..]);
      RunsFromCover(xs[0], xs[0], xs[1..]);
      assert Range(xs[0], xs[0]) == [xs[0]];
      assert xs == [xs[0]] + xs[1..];
    }
  }

  /** The token `a-b` of two non-negative numbers: no comma, no surrounding
      whitespace, and it expands to `range(a, b + 1)`. */
  lemma PairToken(a: nat, b: nat)
    ensures var t := NatToString(a) + ['-'] + NatToString(b);
      && ',' !in t && Strip(t) == t && '-' in t
      && ExpandToken(t) == Some(Range(a, b))
  {
    var da := NatToString(a);
    var db := NatToString(b);
    var t := da + ['-'] + db;
    SplitFirstAt(da, db, '-');
    ParseIntOfNat(a);
    ParseIntOfNat(b);
    DigitNotSpace(da[0]);
    DigitNotSpace(db[|db| - 1]);
    assert t[0] == da[0] && t[|t| - 1] == db[|db| - 1];
    StripNoSpace(t);
  }

  /** A run of non-negative numbers is written `a` or `a-b` (with `a < b`),
      and expanding that token gives the run back. */
  lemma ExpandRunToken(r: Run)
    requires 0 <= r.lo <= r.hi
    ensures ',' !in RunToken(r)
    ensures Strip(RunToken(r)) == RunToken(r) && RunToken(r) != []
    ensures ExpandToken(RunToken(r)) == Some(Range(r.lo, r.hi))
  {
    assert IntToString(r.lo) == NatToString(r.lo);
    assert IntToString(r.hi) == NatToString(r.hi);
    if r.lo != r.hi {
      assert RunToken(r) == NatToString(r.lo) + ['-'] + NatToString(r.hi);
      PairToken(r.lo, r.hi);
    } else {
      SingleToken(r.lo);
    }
  }

  /** The token of a singleton run. */
  lemma SingleToken(n: nat)
    ensures ',' !in NatToString(n) && Strip(NatToString(n)) == NatToString(n)
    ensures ExpandToken(NatToString(n)) == Some(Range(n, n))
  {
    NatToStringStripped(n);
    ParseIntOfNat(n);
    assert Range(n, n) == [n];
  }

  /** Expanding the tokens of maximal runs of non-negative numbers gives the
      numbers they cover. */
  lemma {:induction false} ExpandTokens(runs: seq<Run>)
    requires forall k :: 0 <= k < |runs| ==> 0 <= runs[k].lo <= runs[k].hi
    ensures ExpandParts(Tokens(runs)) == Some(Flatten(runs))
  {
    if runs != [] {
      ExpandRunToken(runs[0]);
      ExpandTokens(runs[1..]);
      assert Tokens(runs)[1..] == Tokens(runs[1..]);
    }
  }

  /** Round trip: for non-negative scene numbers, `expand_range_str`
      undoes `compress_ints` up to order and duplicates, which
      `compress_ints` ignores. */
  lemma ExpandCompress(nums: seq<int>)
    requires NonNegative(nums)
    ensures Expand(Compress(nums)) == Some(SortedInts(nums))
  {
    if nums != [] {
      var sorted := SortedInts(nums);
      assert Increasing(sorted);
      var runs := Runs(sorted);
      RunsCorrect(sorted);
      RunsNonNegative(nums);
      var ts := Tokens(runs);
      forall k | 0 <= k < |ts| ensures ',' !in ts[k] {
        ExpandRunToken(runs[k]);
      }
      SplitJoin(ts, ',');
      ExpandTokens(runs);
    }
  }

  /** The runs of non-negative numbers have non-negative bounds. */
  lemma RunsNonNegative(nums: seq<int>)
    requires NonNegative(nums) && nums != []
    ensures var runs := Runs(SortedInts(nums));
      forall k :: 0 <= k < |runs| ==> 0 <= runs[k].lo <= runs[k].hi
  {
    var sorted := SortedInts(nums);
    RunsFromShape(sorted[0], sorted[0], sorted[1..]);
    assert forall y :: y in sorted ==> y >= 0;
    assert forall y :: y in sorted[1..] ==> y in sorted;
    assert sorted[0] in sorted;
  }

  /** `compress_ints` ignores input order and duplicates. */
  lemma CompressCanonical(nums: seq<int>, other: seq<int>)
    requires forall y :: y in nums <==> y in other
    ensures Compress(nums) == Compress(other)
  {
    assert nums != [] ==> nums[0] in nums;
    assert other != [] ==> other[0] in other;
    if nums != [] && other != [] {
      SortedIntsUnique(SortedInts(nums), other);
    }
  }

  /** In particular `compress(L) == compress(sorted(set(L)))`. */
  lemma CompressOfSortedSet(nums: seq<int>)
    ensures Compress(nums) == Compress(SortedInts(nums))
  {
    CompressCanonical(nums, SortedInts(nums));
  }

  /** A single comma-free token expands as that token alone. */
  lemma ExpandSingleField(t: string)
    requires t != [] && ',' !in t && Strip(t) == t
    ensures Expand(t) == ExpandToken(t)
  {
    SplitNoSep(t, ',');
    assert Expand(t) == ExpandParts([t]);
    ExpandPartsSingle(t);
  }

  lemma ExpandPartsSingle(t: string)
    requires Strip(t) == t && t != []
    ensures ExpandParts([t]) == ExpandToken(t)
  {
    assert [t][1..] == [];
    assert ExpandParts([t][1..]) == Some([]);
    var e := ExpandToken(t);
    assert e.Some? ==> e.value + [] == e.value;
  }

  /** `expand_range_str("a-b")` is `range(a, b + 1)`: inclusive, and empty
      when `a > b`. */
  lemma ExpandRangeString(a: nat, b: nat)
    ensures Expand(NatToString(a) + ['-'] + NatToString(b)) == Some(Range(a, b))
    ensures a > b ==> Expand(NatToString(a) + ['-'] + NatToString(b)) == Some([])
  {
    PairToken(a, b);
    ExpandSingleField(NatToString(a) + ['-'] + NatToString(b));
  }

  /** Blank fields are skipped: surrounding a text with blank fields does
      not change its expansion. */
  lemma ExpandSkipsBlank(parts: seq<string>, blank: string)
    requires Strip(blank) == []
    ensures ExpandParts([blank] + parts) == ExpandParts(parts)
  {
    assert ([blank] + parts)[1..] == parts;
  }
}
