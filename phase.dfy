/**
 analysis/phase.py: each scene's position within its institution's video
 and the tercile (Early, Middle, Late) that position falls in.
 */
module Phase {
  import opened Text

  datatype Phase = Early | Middle | Late

  /** The order of the phases through a video. */
  function Rank(p: Phase): nat {
    match p
    case Early => 0
    case Middle => 1
    case Late => 2
  }

  /** `int(np.ceil(m / 3))`. */
  function CeilThird(m: nat): (c: nat)
    ensures 3 * c >= m && 3 * c < m + 3
  {
    (m + 2) / 3
  }

  /** `assign_phase` for the `i`-th of `n` scenes (lines 43-49). */
  function AssignPhase(n: nat, i: nat): (p: Phase)
    requires 1 <= i <= n
    ensures i == 1 ==> p == Early
    ensures 3 <= n && i == n ==> p == Late
  {
    if n <= 3 then [Early, Middle, Late][i - 1]
    else if i <= CeilThird(n) then Early
    else if i <= CeilThird(2 * n) then Middle
    else Late
  }

  /** Beyond three scenes the phase is the tercile of the position, with
      the boundaries rounded up: Early up to `n/3`, Middle up to `2n/3`. */
  lemma Terciles(n: nat, i: nat)
    requires 3 < n && 1 <= i <= n
    ensures AssignPhase(n, i) == Early <==> 3 * i < n + 3
    ensures AssignPhase(n, i) == Middle <==> n + 3 <= 3 * i < 2 * n + 3
    ensures AssignPhase(n, i) == Late <==> 2 * n + 3 <= 3 * i
  {
  }

  /** The phase never goes back as the position advances. */
  lemma Monotone(n: nat, i: nat, j: nat)
    requires 1 <= i <= j <= n
    ensures Rank(AssignPhase(n, i)) <= Rank(AssignPhase(n, j))
  {
  }

  /** With four or more scenes the first is Early and the last Late. */
  lemma Ends(n: nat)
    requires n >= 4
    ensures AssignPhase(n, 1) == Early && AssignPhase(n, n) == Late
  {
  }

  /** From three scenes on, every phase occurs. */
  lemma AllPhasesOccur(n: nat, p: Phase)
    requires n >= 3
    ensures exists i :: 1 <= i <= n && AssignPhase(n, i) == p
  {
    var i := if p == Early then 1 else if p == Late then n else if n == 3 then 2 else CeilThird(n) + 1;
    assert AssignPhase(n, i) == p;
  }

  // ---------------------------------------------------------------------
  // pos_in_domain and count_in_domain

  /** `count_in_domain`: how many rows belong to domain `d`. */
  function CountIn(ds: seq<string>, d: string): (c: nat)
    ensures c <= |ds|
  {
    if ds == [] then 0
    else CountIn(ds[..|ds| - 1], d) + (if ds[|ds| - 1] == d then 1 else 0)
  }

  /** `pos_in_domain` of row `k` (`cumcount() + 1`): one more than the
      rows of its domain before it. */
  function Position(ds: seq<string>, k: nat): (r: nat)
    requires k < |ds|
    ensures 1 <= r <= k + 1
  {
    CountIn(ds[..k], ds[k]) + 1
  }

  lemma {:induction false} CountPrefix(ds: seq<string>, k: nat, l: nat, d: string)
    requires k <= l <= |ds|
    ensures CountIn(ds[..k], d) <= CountIn(ds[..l], d)
    ensures k < l && ds[k] == d ==> CountIn(ds[..k], d) < CountIn(ds[..l], d)
    decreases l - k
  {
    if k < l {
      CountPrefix(ds, k, l - 1, d);
      assert ds[..l][..l - 1] == ds[..l - 1];
      if k == l - 1 {
        assert ds[..l][l - 1] == ds[k];
      }
    }
  }

  /** A position lies between 1 and the domain's count. */
  lemma PositionBounds(ds: seq<string>, k: nat)
    requires k < |ds|
    ensures 1 <= Position(ds, k) <= CountIn(ds, ds[k])
  {
    CountPrefix(ds, k, |ds|, ds[k]);
    assert ds[..|ds|] == ds;
  }

  /** Two rows of one domain never share a position; the later one has
      the higher position. */
  lemma PositionsIncrease(ds: seq<string>, k: nat, l: nat)
    requires k < l < |ds| && ds[k] == ds[l]
    ensures Position(ds, k) < Position(ds, l)
  {
    CountPrefix(ds, k, l, ds[k]);
  }

  /** Every position from 1 to the count is taken by a row of the domain. */
  lemma {:induction false} PositionsCover(ds: seq<string>, d: string, p: nat)
    requires 1 <= p <= CountIn(ds, d)
    ensures exists k :: 0 <= k < |ds| && ds[k] == d && Position(ds, k) == p
    decreases |ds|
  {
    var init := ds[..|ds| - 1];
    if p <= CountIn(init, d) {
      PositionsCover(init, d, p);
      var k :| 0 <= k < |init| && init[k] == d && Position(init, k) == p;
      assert init[..k] == ds[..k];
      assert Position(ds, k) == p;
    } else {
      assert ds[|ds| - 1] == d;
      assert ds[..|ds| - 1] == init;
      assert Position(ds, |ds| - 1) == p;
    }
  }

  // ---------------------------------------------------------------------
  // parse_scene_number

  /** The text `re.search(r'\d+(?:\.\d+)?', s)` matches at a digit. */
  function NumberAt(s: string): (r: string)
    requires s != [] && IsDigit(s[0])
    ensures r != [] && |r| <= |s| && r == s[..|r|]
  {
    var d := DigitPrefix(s);
    var rest := s[|d|..];
    if |rest| >= 2 && rest[0] == '.' && IsDigit(rest[1]) then
      var f := DigitPrefix(rest[1..]);
      assert s[..|d| + 1 + |f|] == d + "." + f;
      d + "." + f
    else d
  }

  /** `re.search(r'\d+(?:\.\d+)?', s)`: the first number in the text. */
  function FirstNumber(s: string): (r: Option<string>)
    ensures r.None? <==> forall i :: 0 <= i < |s| ==> !IsDigit(s[i])
    decreases |s|
  {
    if s == [] then None
    else if IsDigit(s[0]) then Some(NumberAt(s))
    else FirstNumber(s[1..])
  }

  /** `re.match(r'^\d+(\.\d+)?$', s)` on a stripped text. */
  predicate IsNumberText(s: string) {
    (AllDigits(s) && s != []) ||
    ('.' in s && var (i, f) := SplitFirst(s, '.'); i != [] && f != [] && AllDigits(i) && AllDigits(f))
  }

  /** `parse_scene_number(x)` (lines 24-30), `None` standing for NaN. */
  function ParseSceneNumber(x: Option<string>): (r: Option<real>)
    ensures r.Some? ==> r.value >= 0.0
  {
    if x.None? then None
    else
      var s := Strip(x.value);
      if ':' in s && !IsNumberText(s) then None
      else
        var m := FirstNumber(s);
        if m.None? then None else ParseUnsignedDecimal(m.value)
  }

  /** A number text never holds `:`, so every text with a colon (a
      time such as `0:12`) has no scene number. */
  lemma ColonIsNoNumber(x: string)
    requires ':' in Strip(x)
    ensures ParseSceneNumber(Some(x)).None?
  {
    var s := Strip(x);
    if '.' in s {
      var (i, f) := SplitFirst(s, '.');
      assert s == i + "." + f;
      assert ':' in i || ':' in f;
    }
  }

  /** A plain scene number reads as itself. */
  lemma PlainNumber(n: nat)
    ensures ParseSceneNumber(Some(NatToString(n))) == Some(n as real)
  {
    var s := NatToString(n);
    NatToStringStripped(n);
    DigitsAreNumber(s);
    DecimalOfNat(n);
    assert ParseUnsignedDecimal(s) == ParseDecimal(s);
  }

  /** A run of digits has no colon and is its own first number. */
  lemma DigitsAreNumber(s: string)
    requires s != [] && AllDigits(s)
    ensures ':' !in s && FirstNumber(s) == Some(s)
  {
    DigitPrefixOf(s, []);
    assert s + [] == s;
    assert s[|s|..] == [];
    assert NumberAt(s) == s;
  }
}
