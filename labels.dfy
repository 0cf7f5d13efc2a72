/**
 analysis/analysis.py: the category labels of a scene, read from the
 spreadsheet's `Category` cell and mapped onto the fixed set of code
 columns.
 */
module Labels {
  import opened Text
  import opened Sorting

  // ---------------------------------------------------------------------
  // normalize_label and parse_labels

  predicate IsDoubleQuote(c: char) { c == '"' }
  predicate IsSingleQuote(c: char) { c == '\'' }

  /** `str.strip(q)`: the character `q` removed from both ends. */
  function StripQuote(s: string, isQuote: char -> bool): string {
    RStripBy(LStripBy(s, isQuote), isQuote)
  }

  /** `normalize_label(lbl)`: `None` for a missing cell; otherwise strip
      whitespace, then double quotes, then single quotes, and make every
      run of whitespace one space. */
  function NormalizeLabel(lbl: Option<string>): (r: Option<string>)
    ensures r.None? <==> lbl.None?
    ensures r.Some? ==> forall i :: 0 <= i < |r.value| && IsSpace(r.value[i]) ==> r.value[i] == ' '
    ensures r.Some? ==> forall i :: 0 <= i < |r.value| - 1 ==> !(IsSpace(r.value[i]) && IsSpace(r.value[i + 1]))
  {
    if lbl.None? then None
    else Some(ReplaceRuns(StripQuote(StripQuote(Strip(lbl.value), IsDoubleQuote), IsSingleQuote), IsSpace, ' '))
  }

  /** `parse_labels(cell)`: the non-empty normalised comma-separated
      tokens; none for a missing cell. */
  function ParseLabels(cell: Option<string>): (r: seq<string>)
    ensures cell.None? ==> r == []
  {
    if cell.None? then [] else NonEmptyLabels(Split(cell.value, ','))
  }

  function NonEmptyLabels(tokens: seq<string>): (r: seq<string>)
    ensures |r| <= |tokens|
  {
    if tokens == [] then []
    else
      var t := NormalizeLabel(Some(tokens[0])).value;
      (if t != [] then [t] else []) + NonEmptyLabels(tokens[1..])
  }

  /** A label as the table writes one: not empty, no comma, no whitespace
      or quote at either end, single spaces inside. */
  predicate CleanLabel(l: string) {
    && l != [] && ',' !in l
    && !IsSpace(l[0]) && !IsSpace(l[|l| - 1])
    && !IsDoubleQuote(l[0]) && !IsSingleQuote(l[0])
    && !IsDoubleQuote(l[|l| - 1]) && !IsSingleQuote(l[|l| - 1])
    && (forall i :: 0 <= i < |l| && IsSpace(l[i]) ==> l[i] == ' ')
    && (forall i :: 0 <= i < |l| - 1 ==> !(IsSpace(l[i]) && IsSpace(l[i + 1])))
  }

  /** A label as `parse_labels` hands one out. */
  predicate ParsedLabel(l: string) {
    l != [] && ',' !in l && forall i :: 0 <= i < |l| && IsSpace(l[i]) ==> l[i] == ' '
  }

  /** Every label that comes out is non-empty, has no comma and has
      single spaces for its whitespace. */
  lemma ParsedLabelsClean(cell: string)
    ensures forall l :: l in ParseLabels(Some(cell)) ==> ParsedLabel(l)
  {
    NonEmptyLabelsClean(Split(cell, ','));
  }

  lemma {:induction false} NonEmptyLabelsClean(tokens: seq<string>)
    requires forall k :: 0 <= k < |tokens| ==> ',' !in tokens[k]
    ensures forall l :: l in NonEmptyLabels(tokens) ==> ParsedLabel(l)
    decreases |tokens|
  {
    if tokens != [] {
      NonEmptyLabelsClean(tokens[1..]);
      NormalizeNoComma(tokens[0]);
      var t := NormalizeLabel(Some(tokens[0])).value;
      assert t != [] ==> ParsedLabel(t);
    }
  }

  lemma NormalizeNoComma(s: string)
    requires ',' !in s
    ensures ',' !in NormalizeLabel(Some(s)).value
  {
    var a := Strip(s);
    StripIn(s);
    var b := StripQuote(a, IsDoubleQuote);
    StripQuoteIn(a, IsDoubleQuote);
    var c := StripQuote(b, IsSingleQuote);
    StripQuoteIn(b, IsSingleQuote);
    assert ',' !in c;
    var r := ReplaceRuns(c, IsSpace, ' ');
    if ',' in r {
      ReplaceRunsChars(c, IsSpace, ' ', ',');
    }
  }

  lemma StripQuoteIn(s: string, isQuote: char -> bool)
    ensures forall x :: x in StripQuote(s, isQuote) ==> x in s
  {
    var l := LStripBy(s, isQuote);
    var r := RStripBy(l, isQuote);
    assert forall x :: x in r ==> x in l;
    assert forall x :: x in l ==> x in s;
  }

  /** Substituting a lone `with` for every run changes nothing when each
      run already is a lone `with`. */
  lemma {:induction false} ReplaceSingles(s: string, inClass: char -> bool, with: char)
    requires forall i :: 0 <= i < |s| && inClass(s[i]) ==> s[i] == with
    requires forall i :: 0 <= i < |s| - 1 ==> !(inClass(s[i]) && inClass(s[i + 1]))
    ensures ReplaceRuns(s, inClass, with) == s
    decreases |s|
  {
    if s != [] {
      ReplaceSingles(s[1..], inClass, with);
      if inClass(s[0]) {
        assert LStripBy(s, inClass) == LStripBy(s[1..], inClass);
        assert LStripBy(s[1..], inClass) == s[1..];
      }
      SliceCons(s, 0);
    }
  }

  /** A clean label is its own normal form. */
  lemma NormalizeClean(l: string)
    requires CleanLabel(l)
    ensures NormalizeLabel(Some(l)) == Some(l)
  {
    StripNoSpace(l);
    assert LStripBy(l, IsDoubleQuote) == l;
    assert RStripBy(l, IsDoubleQuote) == l;
    assert LStripBy(l, IsSingleQuote) == l;
    assert RStripBy(l, IsSingleQuote) == l;
    ReplaceSingles(l, IsSpace, ' ');
  }

  /** A label its own normal form. */
  predicate Normal(l: string) {
    l != [] && NormalizeLabel(Some(l)) == Some(l)
  }

  lemma {:induction false} NonEmptyClean(ls: seq<string>, i: nat)
    requires i <= |ls|
    requires forall k :: 0 <= k < |ls| ==> Normal(ls[k])
    ensures NonEmptyLabels(ls[i..]) == ls[i..]
    decreases |ls| - i
  {
    if i < |ls| {
      NonEmptyClean(ls, i + 1);
      assert Normal(ls[i]);
      NonEmptyCons(ls[i], ls[i + 1..]);
      SliceCons(ls, i);
    }
  }

  lemma NonEmptyCons(t: string, rest: seq<string>)
    requires t != [] && NormalizeLabel(Some(t)) == Some(t)
    ensures NonEmptyLabels([t] + rest) == [t] + NonEmptyLabels(rest)
  {
    assert ([t] + rest)[1..] == rest;
  }

  /** A cell written as the comma-joined clean labels reads back as those
      labels. */
  lemma ParseLabelsRoundTrip(ls: seq<string>)
    requires forall k :: 0 <= k < |ls| ==> CleanLabel(ls[k])
    ensures ParseLabels(Some(Join(ls, ','))) == ls
  {
    if ls == [] {
      assert Split([], ',') == [[]];
      assert NormalizeLabel(Some([])) == Some([]);
    } else {
      SplitJoin(ls, ',');
      forall k | 0 <= k < |ls|
        ensures Normal(ls[k])
      {
        NormalizeClean(ls[k]);
      }
      NonEmptyClean(ls, 0);
      assert ls[0..] == ls;
    }
  }

  /** `str.strip(q)` of a text wrapped in runs of `q` gives back the text,
      when the text neither starts nor ends with `q`. */
  lemma StripQuoteAround(a: string, m: string, b: string, isQuote: char -> bool)
    requires AllBy(a, isQuote) && AllBy(b, isQuote)
    requires m != [] && !isQuote(m[0]) && !isQuote(m[|m| - 1])
    ensures StripQuote(a + m + b, isQuote) == m
  {
    assert a + m + b == a + (m + b);
    LStripByPrefix(a, m + b, isQuote);
    RStripBySuffix(m, b, isQuote);
  }

  /** The first and last characters of `a + m + b` for a non-empty `m`. */
  lemma Ends(a: string, m: string, b: string)
    requires m != []
    ensures (a + m + b)[0] == if a != [] then a[0] else m[0]
    ensures (a + m + b)[|a + m + b| - 1] == if b != [] then b[|b| - 1] else m[|m| - 1]
  {
  }

  /** `normalize_label` undoes the wrapping a cell may put around a clean
      label: whitespace outside, then double quotes, then single quotes. */
  lemma NormalizeWrapped(w1: string, d1: string, s1: string, x: string, s2: string, d2: string, w2: string)
    requires AllBy(w1, IsSpace) && AllBy(w2, IsSpace)
    requires AllBy(d1, IsDoubleQuote) && AllBy(d2, IsDoubleQuote)
    requires AllBy(s1, IsSingleQuote) && AllBy(s2, IsSingleQuote)
    requires CleanLabel(x)
    ensures NormalizeLabel(Some(w1 + d1 + s1 + x + s2 + d2 + w2)) == Some(x)
  {
    var inner := s1 + x + s2;
    var quoted := d1 + inner + d2;
    assert w1 + d1 + s1 + x + s2 + d2 + w2 == w1 + quoted + w2;
    QuotedEnds(d1, s1, x, s2, d2);
    StripAround(w1, quoted, w2);
    StripQuoteAround(d1, inner, d2, IsDoubleQuote);
    StripQuoteAround(s1, x, s2, IsSingleQuote);
    ReplaceSingles(x, IsSpace, ' ');
  }

  /** The ends of a quoted clean label are quotes or the label's own ends. */
  lemma QuotedEnds(d1: string, s1: string, x: string, s2: string, d2: string)
    requires AllBy(d1, IsDoubleQuote) && AllBy(d2, IsDoubleQuote)
    requires AllBy(s1, IsSingleQuote) && AllBy(s2, IsSingleQuote)
    requires CleanLabel(x)
    ensures var inner := s1 + x + s2;
      && inner != [] && !IsDoubleQuote(inner[0]) && !IsDoubleQuote(inner[|inner| - 1])
      && var quoted := d1 + inner + d2;
      quoted != [] && !IsSpace(quoted[0]) && !IsSpace(quoted[|quoted| - 1])
  {
    Ends(s1, x, s2);
    Ends(d1, s1 + x + s2, d2);
    assert d1 != [] ==> IsDoubleQuote(d1[0]);
    assert d2 != [] ==> IsDoubleQuote(d2[|d2| - 1]);
    assert s1 != [] ==> IsSingleQuote(s1[0]);
    assert s2 != [] ==> IsSingleQuote(s2[|s2| - 1]);
  }

  /** The labels `parse_labels` gives are exactly the non-empty normal
      forms of the comma-separated tokens. */
  lemma ParseLabelsHas(cell: string, l: string)
    ensures l in ParseLabels(Some(cell)) <==>
      exists t :: t in Split(cell, ',') && NormalizeLabel(Some(t)) == Some(l) && l != []
  {
    NonEmptyLabelsHas(Split(cell, ','), l);
  }

  lemma {:induction false} NonEmptyLabelsHas(tokens: seq<string>, l: string)
    ensures l in NonEmptyLabels(tokens) <==>
      exists t :: t in tokens && NormalizeLabel(Some(t)) == Some(l) && l != []
    decreases |tokens|
  {
    if tokens != [] {
      NonEmptyLabelsHas(tokens[1..], l);
      assert forall t :: t in tokens <==> t == tokens[0] || t in tokens[1..];
    }
  }

  /** Stripping runs before un-quoting, so whitespace inside quotes
      survives at the start of the label. */
  lemma QuotedSpaceKept()
    ensures NormalizeLabel(Some("' x'")) == Some(" x")
  {
    QuotedNoOuterSpace();
    QuotedUnquoted();
    QuotedRunsKept();
  }

  lemma QuotedRunsKept()
    ensures ReplaceRuns(" x", IsSpace, ' ') == " x"
  {
    ReplaceSingles(" x", IsSpace, ' ');
  }

  lemma QuotedNoOuterSpace()
    ensures Strip("' x'") == "' x'"
  {
  }

  lemma QuotedUnquoted()
    ensures StripQuote(StripQuote("' x'", IsDoubleQuote), IsSingleQuote) == " x"
  {
    assert LStripBy("' x'", IsDoubleQuote) == "' x'";
    assert RStripBy("' x'", IsDoubleQuote) == "' x'";
    assert LStripBy(" x'", IsSingleQuote) == " x'";
    assert RStripBy(" x'", IsSingleQuote) == " x";
  }

  // ---------------------------------------------------------------------
  // label_to_code, code_cols and map_to_codes

  /** `label_to_code` (lines 56-77). */
  const LabelToCode: map<string, string> := map[
    "code_academics_legacy" := "code_academics_legacy",
    "code_campus" := "code_campus",
    "code_management" := "code_management",
    "code_international" := "code_international",
    "code_innovation" := "code_innovation",
    "code_social" := "code_social",
    "code_finearts" := "code_finearts",
    "code_athletics" := "code_athletics",
    "code_student" := "code_student",
    "code_value" := "code_value",
    "code_other" := "code_other",
    "code_advertisement" := "code_advertisement",
    "code_brand" := "code_brand",
    "code_industry" := "code_industry",
    "code_atmosphere" := "code_atmosphere",
    "code_academics" := "code_academics",
    "code_teaching" := "code_teaching",
    "code_research" := "code_research",
    "code_location" := "code_location",
    "code_story" := "code_story"
  ]

  /** The values of `label_to_code` in the order they are written. */
  const CodeValues: seq<string> := [
    "code_academics_legacy",
    "code_campus",
    "code_management",
    "code_international",
    "code_innovation",
    "code_social",
    "code_finearts",
    "code_athletics",
    "code_student",
    "code_value",
    "code_other",
    "code_advertisement",
    "code_brand",
    "code_industry",
    "code_atmosphere",
    "code_academics",
    "code_teaching",
    "code_research",
    "code_location",
    "code_story"
  ]

  /** `code_cols`: the codes, sorted, each once. */
  function CodeCols(): (r: seq<string>)
    ensures StrictlySorted(r, StrLess)
    ensures forall c :: c in r <==> c in CodeValues
  {
    SortedStrings(CodeValues)
  }

  /** The table maps every label to itself, its values are the listed
      codes and none of them is empty. */
  lemma LabelTable()
    ensures forall l :: l in LabelToCode ==> LabelToCode[l] == l && l != []
    ensures forall c :: c in CodeCols() <==> c in LabelToCode.Values
  {
    KeysMapToThemselves();
    KeysAreCodeValues();
    assert forall c :: c in LabelToCode.Values <==> c in LabelToCode;
  }

  lemma KeysMapToThemselves()
    ensures forall l :: l in LabelToCode ==> LabelToCode[l] == l && l != []
  {
  }

  lemma KeysAreCodeValues()
    ensures forall c :: c in CodeValues <==> c in LabelToCode
  {
  }

  /** `label_to_code.get(lbl)` taken as true: the label is in the table
      with a non-empty code. */
  predicate HasCode(l: string) { l in LabelToCode && LabelToCode[l] != [] }

  /** The codes the `map_to_codes` loop appends, in label order. */
  function FoundCodes(ls: seq<string>): (r: seq<string>)
    ensures forall c :: c in r <==> exists l :: l in ls && HasCode(l) && LabelToCode[l] == c
    decreases |ls|
  {
    if ls == [] then []
    else
      var l := ls[|ls| - 1];
      assert forall x :: x in ls <==> x in ls[..|ls| - 1] || x == l;
      FoundCodes(ls[..|ls| - 1]) + (if HasCode(l) then [LabelToCode[l]] else [])
  }

  /** The labels the `map_to_codes` loop appends to `unknown`, in order. */
  function MissingLabels(ls: seq<string>): (r: seq<string>)
    ensures forall u :: u in r <==> u in ls && !HasCode(u)
    decreases |ls|
  {
    if ls == [] then []
    else
      var l := ls[|ls| - 1];
      assert forall x :: x in ls <==> x in ls[..|ls| - 1] || x == l;
      MissingLabels(ls[..|ls| - 1]) + (if HasCode(l) then [] else [l])
  }

  /** `map_to_codes(labels)`: the codes of the known labels and the
      unknown labels, each sorted and without repeats. A table value that
      is empty would count its label as unknown. */
  method MapToCodes(labels: seq<string>) returns (codes: seq<string>, unknown: seq<string>)
    ensures StrictlySorted(codes, StrLess) && StrictlySorted(unknown, StrLess)
    ensures forall c :: c in codes <==> exists l :: l in labels && l in LabelToCode && LabelToCode[l] == c
    ensures forall u :: u in unknown <==> u in labels && u !in LabelToCode
    ensures forall c :: c in codes ==> c in CodeCols()
  {
    var found: seq<string> := [];
    var missing: seq<string> := [];
    for i := 0 to |labels|
      invariant found == FoundCodes(labels[..i])
      invariant missing == MissingLabels(labels[..i])
    {
      assert labels[..i + 1][..i] == labels[..i];
      var lbl := labels[i];
      var code: Option<string> := if lbl in LabelToCode then Some(LabelToCode[lbl]) else None;
      if code.Some? && code.value != [] {
        found := found + [code.value];
      } else {
        missing := missing + [lbl];
      }
    }
    assert labels[..|labels|] == labels;
    LabelTable();
    codes := SortedStrings(found);
    unknown := SortedStrings(missing);
  }
}
