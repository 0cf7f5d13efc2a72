/**
 The per-domain planning of `autocode.py`: which scene files on disk
 continue each coded clip, which screenshot represents the clip, how the
 scene directory is listed, and the headerless `glue.csv` it writes
 (`base` or `base,<ranges>` per clip).
 */
module Continuation {
  import opened Text
  import opened Sorting
  import opened RangeCodec
  import opened Paths

  // ---------------------------------------------------------------------
  // continuation windows

  /** `[n for n in range(start, end + 1) if n in existing]`. */
  function Window(existing: set<int>, start: int, end: int): (r: seq<int>)
    decreases end - start
    ensures forall n :: n in r <==> n in existing && start <= n <= end
    ensures Increasing(r)
  {
    if start > end then []
    else
      var tail := Window(existing, start + 1, end);
      var r := (if start in existing then [start] else []) + tail;
      assert forall k :: 0 <= k < |tail| ==> tail[k] in tail;
      r
  }

  /** `continuation_scenes(existing, base, next_base, max_scene)`: the
      scenes on disk after `base` and before the next base, or up to the
      highest scene on disk for the last base. */
  function ContinuationScenes(existing: set<int>, base: int, nextBase: Option<int>, maxScene: Option<int>): (r: seq<int>)
    ensures existing == {} || maxScene.None? ==> r == []
    ensures forall n :: n in r <==>
      && existing != {} && maxScene.Some?
      && n in existing && base < n
      && (if nextBase.Some? then n < nextBase.value else n <= maxScene.value)
    ensures Increasing(r)
  {
    if existing == {} || maxScene.None? then []
    else
      var start := base + 1;
      var end := if nextBase.Some? then nextBase.value - 1 else maxScene.value;
      if end < start then [] else Window(existing, start, end)
  }

  /** `max(nums) if nums else None`. */
  function MaxOf(xs: seq<int>): (r: Option<int>)
    ensures r.None? <==> xs == []
    ensures r.Some? ==> r.value in xs && forall x :: x in xs ==> x <= r.value
  {
    if xs == [] then None
    else
      assert forall x :: x in xs ==> x == xs[0] || x in xs[1..];
      match MaxOf(xs[1..])
      case None => Some(xs[0])
      case Some(m) => Some(if xs[0] >= m then xs[0] else m)
  }

  /** `next_bases = bases[1:] + [None]`, at position `i`. */
  function NextBase(bases: seq<int>, i: nat): Option<int> {
    if i + 1 < |bases| then Some(bases[i + 1]) else None
  }

  /** The continuation list of the `i`-th base of a domain. */
  function Cont(existing: seq<int>, bases: seq<int>, i: nat): seq<int>
    requires i < |bases|
  {
    ContinuationScenes(SetOf(existing), bases[i], NextBase(bases, i), MaxOf(existing))
  }

  predicate NonDecreasing(xs: seq<int>) {
    forall i, j :: 0 <= i <= j < |xs| ==> xs[i] <= xs[j]
  }

  // ---------------------------------------------------------------------
  // screenshots

  /** `scene_jpg_path`: `<dir>/<prefix><n>_screenshot<ext>`. */
  function ShotPath(dir: string, n: int, jpgExt: string, prefix: string): string {
    PathJoin(dir, prefix + IntToString(n) + "_screenshot" + jpgExt)
  }

  /** `choose_image_for_clip`; `present` is `os.path.exists`. */
  function ChooseImage(dir: string, base: int, cont: seq<int>, jpgExt: string, prefix: string,
                       present: string -> bool): (r: Option<string>)
    ensures present(ShotPath(dir, base, jpgExt, prefix)) ==> r == Some(ShotPath(dir, base, jpgExt, prefix))
    ensures r.Some? ==> (present(r.value) &&
      (r.value == ShotPath(dir, base, jpgExt, prefix) || (cont != [] && r.value == ShotPath(dir, cont[0], jpgExt, prefix))))
    ensures r.None? <==>
      !present(ShotPath(dir, base, jpgExt, prefix)) && (cont == [] || !present(ShotPath(dir, cont[0], jpgExt, prefix)))
  {
    var p := ShotPath(dir, base, jpgExt, prefix);
    if present(p) then Some(p)
    else if cont != [] && present(ShotPath(dir, cont[0], jpgExt, prefix)) then Some(ShotPath(dir, cont[0], jpgExt, prefix))
    else None
  }

  /** `img or ''`. */
  function OrEmpty(img: Option<string>): string {
    if img.Some? then img.value else ""
  }

  // ---------------------------------------------------------------------
  // listing the scene directory

  /** The scene number of one directory entry: the name must start with the
      prefix and end with the extension, ignoring case, and the number is
      the first run of digits anywhere in the name. */
  function SceneNumber(fn: string, mp4Ext: string, prefix: string): (r: Option<int>)
    ensures r.Some? ==> r.value >= 0
  {
    if !StartsWith(Lower(fn), Lower(prefix)) || !EndsWith(Lower(fn), Lower(mp4Ext)) then None
    else
      match FirstDigitRun(fn)
      case None => None
      case Some(d) => Some(DigitsValue(d))
  }

  /** The values present in a list of options, in order. */
  function Somes(xs: seq<Option<int>>): seq<int> {
    if xs == [] then []
    else Somes(xs[..|xs| - 1]) + if xs[|xs| - 1].Some? then [xs[|xs| - 1].value] else []
  }

  /** The scene number of every entry of a listing. */
  function Probe(names: seq<string>, mp4Ext: string, prefix: string): (r: seq<Option<int>>)
    ensures |r| == |names|
    ensures forall k :: 0 <= k < |names| ==> r[k] == SceneNumber(names[k], mp4Ext, prefix)
  {
    seq(|names|, k requires 0 <= k < |names| => SceneNumber(names[k], mp4Ext, prefix))
  }

  /** The numbers the listing loop appends, in listing order. */
  function SceneNumbers(names: seq<string>, mp4Ext: string, prefix: string): seq<int> {
    Somes(Probe(names, mp4Ext, prefix))
  }

  /** `list_existing_scene_numbers`, over the entries `os.listdir` returns;
      `isDir` is `os.path.isdir(scenes_dir)`. */
  method ListExistingSceneNumbers(isDir: bool, names: seq<string>, mp4Ext: string, prefix: string)
    returns (r: seq<int>)
    ensures r == if isDir then SortedInts(SceneNumbers(names, mp4Ext, prefix)) else []
    ensures Increasing(r) && NonNegative(r)
  {
    if !isDir {
      return [];
    }
    var nums: seq<int> := [];
    var i := 0;
    while i < |names|
      invariant 0 <= i <= |names|
      invariant nums == Somes(Probe(names[..i], mp4Ext, prefix))
    {
      var fn := names[i];
      ProbeSnoc(names, i, mp4Ext, prefix);
      SomesSnoc(Probe(names[..i], mp4Ext, prefix), SceneNumber(fn, mp4Ext, prefix));
      i := i + 1;
      if !StartsWith(Lower(fn), Lower(prefix)) {
        continue;
      }
      if !EndsWith(Lower(fn), Lower(mp4Ext)) {
        continue;
      }
      var m := FirstDigitRun(fn);
      if m.Some? {
        nums := nums + [DigitsValue(m.value)];
      }
    }
    assert names[..i] == names;
    SceneNumbersNonNegative(names, mp4Ext, prefix);
    r := SortedInts(nums);
    SortedNonNegative(nums);
  }

  lemma ProbeSnoc(names: seq<string>, i: nat, mp4Ext: string, prefix: string)
    requires i < |names|
    ensures Probe(names[..i + 1], mp4Ext, prefix) == Probe(names[..i], mp4Ext, prefix) + [SceneNumber(names[i], mp4Ext, prefix)]
  {
  }

  lemma SomesSnoc(xs: seq<Option<int>>, x: Option<int>)
    ensures Somes(xs + [x]) == Somes(xs) + if x.Some? then [x.value] else []
  {
    assert (xs + [x])[..|xs|] == xs;
  }

  lemma SortedNonNegative(xs: seq<int>)
    requires NonNegative(xs)
    ensures NonNegative(SortedInts(xs))
  {
    var r := SortedInts(xs);
    forall i | 0 <= i < |r| ensures r[i] >= 0 {
      assert r[i] in xs;
    }
  }

  // ---------------------------------------------------------------------
  // folder names, columns

  predicate IsSlash(c: char) { c == '\\' || c == '/' }

  predicate IsReserved(c: char) {
    c == ':' || c == '*' || c == '?' || c == '"' || c == '<' || c == '>' || c == '|'
  }

  /** `safe_folder(name)`: strip, then every run of slashes, of reserved
      characters and of whitespace becomes one `_`. */
  function SafeFolder(name: string): (r: string)
    ensures forall i :: 0 <= i < |r| ==> !IsSpace(r[i])
    ensures |r| <= |name|
  {
    ReplaceRuns(ReplaceRuns(ReplaceRuns(Strip(name), IsSlash, '_'), IsReserved, '_'), IsSpace, '_')
  }

  /** `detect_column(df, candidates)`: the first candidate that is a column. */
  function DetectColumn(columns: seq<string>, candidates: seq<string>): (r: Option<string>)
    ensures r.None? <==> forall k :: 0 <= k < |candidates| ==> candidates[k] !in columns
    ensures r.Some? ==> (r.value in columns &&
      exists k :: (0 <= k < |candidates| && candidates[k] == r.value &&
        forall j :: 0 <= j < k ==> candidates[j] !in columns))
  {
    if candidates == [] then None
    else if candidates[0] in columns then Some(candidates[0])
    else
      var r := DetectColumn(columns, candidates[1..]);
      assert r.Some? ==> exists k :: (0 <= k < |candidates[1..]| && candidates[1..][k] == r.value &&
        forall j :: 0 <= j < k ==> candidates[1..][j] !in columns);
      assert forall k :: 1 <= k < |candidates| ==> candidates[k] == candidates[1..][k - 1];
      r
  }

  // ---------------------------------------------------------------------
  // glue.csv and the per-domain loop

  /** One line of `glue.csv`, without its newline. */
  function GlueLine(base: int, cont: seq<int>): (r: string)
    ensures IntToString(base) <= r
    ensures cont != [] ==> |r| > |IntToString(base)| && r[|IntToString(base)|] == ','
    ensures ',' in r <==> cont != []
  {
    if cont != [] then IntToString(base) + "," + Compress(cont) else IntToString(base)
  }

  /** The whole file: one line per `zip(bases, cont_lists)` pair. */
  function GlueText(bases: seq<int>, conts: seq<seq<int>>): string {
    GlueLines(bases, conts, if |bases| <= |conts| then |bases| else |conts|)
  }

  /** The first `n` lines of the file, each followed by a newline. */
  function GlueLines(bases: seq<int>, conts: seq<seq<int>>, n: nat): string
    requires n <= |bases| && n <= |conts|
  {
    if n == 0 then "" else GlueLines(bases, conts, n - 1) + GlueLine(bases[n - 1], conts[n - 1]) + "\n"
  }

  /** `write_glue_csv`, returning the text it writes. */
  method WriteGlueCsv(bases: seq<int>, conts: seq<seq<int>>) returns (text: string)
    ensures text == GlueText(bases, conts)
  {
    text := "";
    var n := if |bases| <= |conts| then |bases| else |conts|;
    var i := 0;
    while i < n
      invariant 0 <= i <= n
      invariant text == GlueLines(bases, conts, i)
    {
      var line: string;
      if conts[i] != [] {
        var c := CompressInts(conts[i]);
        line := IntToString(bases[i]) + "," + c;
      } else {
        line := IntToString(bases[i]);
      }
      GlueLinesSnoc(bases, conts, i, text, line);
      text := text + line + "\n";
      i := i + 1;
    }
  }

  lemma GlueLinesSnoc(bases: seq<int>, conts: seq<seq<int>>, i: nat, text: string, line: string)
    requires i < |bases| && i < |conts| && text == GlueLines(bases, conts, i)
    requires line == if conts[i] != [] then IntToString(bases[i]) + "," + Compress(conts[i]) else IntToString(bases[i])
    ensures text + line + "\n" == GlueLines(bases, conts, i + 1)
  {
  }

  /** The loop of `main` over `zip(bases, next_bases)` for one domain:
      continuation list, its compressed form and the chosen image per
      base. `existing` is the result of the directory listing. */
  method PlanDomain(existing: seq<int>, bases: seq<int>, scenesDir: string, jpgExt: string, prefix: string,
                    present: string -> bool)
    returns (conts: seq<seq<int>>, contStrs: seq<string>, imgs: seq<string>)
    ensures |conts| == |bases| && |contStrs| == |bases| && |imgs| == |bases|
    ensures forall i :: 0 <= i < |bases| ==>
      && conts[i] == Cont(existing, bases, i)
      && contStrs[i] == Compress(conts[i])
      && imgs[i] == OrEmpty(ChooseImage(scenesDir, bases[i], conts[i], jpgExt, prefix, present))
  {
    var existingSet := SetOf(existing);
    var maxScene := MaxOf(existing);
    conts, contStrs, imgs := [], [], [];
    var i := 0;
    while i < |bases|
      invariant 0 <= i <= |bases|
      invariant |conts| == i && |contStrs| == i && |imgs| == i
      invariant forall k :: 0 <= k < i ==> PlannedRow(existing, bases, scenesDir, jpgExt, prefix, present, k, conts[k], contStrs[k], imgs[k])
    {
      var nxt := NextBase(bases, i);
      var cont := ContinuationScenes(existingSet, bases[i], nxt, maxScene);
      var s := CompressInts(cont);
      var img := ChooseImage(scenesDir, bases[i], cont, jpgExt, prefix, present);
      assert PlannedRow(existing, bases, scenesDir, jpgExt, prefix, present, i, cont, s, OrEmpty(img));
      PlannedSnoc(existing, bases, scenesDir, jpgExt, prefix, present, conts, contStrs, imgs, cont, s, OrEmpty(img));
      conts := conts + [cont];
      contStrs := contStrs + [s];
      imgs := imgs + [OrEmpty(img)];
      i := i + 1;
    }
  }

  lemma PlannedSnoc(existing: seq<int>, bases: seq<int>, scenesDir: string, jpgExt: string, prefix: string,
                    present: string -> bool, conts: seq<seq<int>>, contStrs: seq<string>, imgs: seq<string>,
                    cont: seq<int>, s: string, img: string)
    requires |conts| == |contStrs| == |imgs| < |bases|
    requires forall k :: 0 <= k < |conts| ==> PlannedRow(existing, bases, scenesDir, jpgExt, prefix, present, k, conts[k], contStrs[k], imgs[k])
    requires PlannedRow(existing, bases, scenesDir, jpgExt, prefix, present, |conts|, cont, s, img)
    ensures forall k :: 0 <= k < |conts| + 1 ==>
      PlannedRow(existing, bases, scenesDir, jpgExt, prefix, present, k, (conts + [cont])[k], (contStrs + [s])[k], (imgs + [img])[k])
  {
    forall k | 0 <= k < |conts| + 1
      ensures PlannedRow(existing, bases, scenesDir, jpgExt, prefix, present, k, (conts + [cont])[k], (contStrs + [s])[k], (imgs + [img])[k])
    {
      if k < |conts| {
        assert (conts + [cont])[k] == conts[k] && (contStrs + [s])[k] == contStrs[k] && (imgs + [img])[k] == imgs[k];
      }
    }
  }

  /** What the loop of `main` records for base `k`. */
  predicate PlannedRow(existing: seq<int>, bases: seq<int>, scenesDir: string, jpgExt: string, prefix: string,
                       present: string -> bool, k: nat, cont: seq<int>, s: string, img: string)
    requires k < |bases|
  {
    && cont == Cont(existing, bases, k)
    && s == Compress(cont)
    && img == OrEmpty(ChooseImage(scenesDir, bases[k], cont, jpgExt, prefix, present))
  }

  /** The reply of the vision model for one row, or the exception it
      raised. */
  datatype Reply = Answer(text: string) | Raised(errorType: string, message: string)

  /** The `LLM Output` of one row: empty when the model is not called
      (`--no_llm`, or no image on disk), the answer, or `ERROR: <type>: <message>`. */
  function LlmOutput(noLlm: bool, img: string, present: string -> bool, reply: Reply): (r: string)
    ensures noLlm || img == "" || !present(img) ==> r == ""
    ensures !noLlm && img != "" && present(img) ==>
      r == (if reply.Answer? then reply.text else "ERROR: " + reply.errorType + ": " + reply.message)
  {
    if noLlm || img == "" || !present(img) then ""
    else
      match reply
      case Answer(t) => t
      case Raised(e, m) => "ERROR: " + e + ": " + m
  }

  // ---------------------------------------------------------------------
  // properties

  /** Every scene of a continuation lies strictly between its base and the
      next base; a duplicated base gets nothing. */
  lemma ContinuationBounds(existing: seq<int>, bases: seq<int>, i: nat)
    requires i < |bases|
    ensures forall n :: n in Cont(existing, bases, i) ==> bases[i] < n
    ensures i + 1 < |bases| ==> forall n :: n in Cont(existing, bases, i) ==> n < bases[i + 1]
    ensures i + 1 < |bases| && bases[i + 1] == bases[i] ==> Cont(existing, bases, i) == []
  {
    var c := Cont(existing, bases, i);
    assert c != [] ==> c[0] in c;
  }

  /** For bases in ascending order, the continuation lists of two different
      bases share no scene. */
  lemma ContinuationsDisjoint(existing: seq<int>, bases: seq<int>, i: nat, j: nat)
    requires NonDecreasing(bases) && i < j < |bases|
    ensures forall n :: n in Cont(existing, bases, i) ==> n !in Cont(existing, bases, j)
  {
    ContinuationBounds(existing, bases, i);
    ContinuationBounds(existing, bases, j);
    assert bases[i + 1] <= bases[j];
  }

  /** ... and no continuation list contains a base. */
  lemma ContinuationAvoidsBases(existing: seq<int>, bases: seq<int>, i: nat)
    requires NonDecreasing(bases) && i < |bases|
    ensures forall k :: 0 <= k < |bases| ==> bases[k] !in Cont(existing, bases, i)
  {
    ContinuationBounds(existing, bases, i);
    forall k | 0 <= k < |bases| ensures bases[k] !in Cont(existing, bases, i) {
      if k <= i {
        assert bases[k] <= bases[i];
      } else {
        assert bases[i + 1] <= bases[k];
      }
    }
  }

  /** For bases in ascending order, the last base at or below `n`. */
  lemma {:induction false} FindSlot(bases: seq<int>, n: int) returns (i: nat)
    requires NonDecreasing(bases) && bases != [] && bases[0] < n
    requires forall k :: 0 <= k < |bases| ==> bases[k] != n
    ensures i < |bases| && bases[i] < n && (i + 1 < |bases| ==> n < bases[i + 1])
  {
    if bases[|bases| - 1] < n {
      i := |bases| - 1;
    } else {
      var init := bases[..|bases| - 1];
      assert init[0] == bases[0];
      i := FindSlot(init, n);
      assert bases[i] == init[i];
      if i + 1 < |init| {
        assert bases[i + 1] == init[i + 1];
      }
    }
  }

  /** Every scene on disk after the first base that is not itself a base
      continues exactly one base. */
  lemma ContinuationCovers(existing: seq<int>, bases: seq<int>, n: int) returns (i: nat)
    requires NonDecreasing(bases) && bases != [] && bases[0] < n
    requires n in existing && forall k :: 0 <= k < |bases| ==> bases[k] != n
    ensures i < |bases| && n in Cont(existing, bases, i)
    ensures forall j :: 0 <= j < |bases| && j != i ==> n !in Cont(existing, bases, j)
  {
    i := FindSlot(bases, n);
    assert n in SetOf(existing);
    forall j | 0 <= j < |bases| && j != i ensures n !in Cont(existing, bases, j) {
      if j < i {
        ContinuationsDisjoint(existing, bases, j, i);
      } else {
        ContinuationsDisjoint(existing, bases, i, j);
      }
    }
  }

  /** The image chosen for a clip is the screenshot of the base or of its
      first continuation scene, and it exists. */
  lemma ChosenImageOfClip(existing: seq<int>, bases: seq<int>, i: nat, dir: string, jpgExt: string, prefix: string,
                          present: string -> bool)
    requires i < |bases|
    ensures var c := Cont(existing, bases, i);
      var img := ChooseImage(dir, bases[i], c, jpgExt, prefix, present);
      img.Some? ==> (present(img.value) &&
        exists n :: (n == bases[i] || n in c) && img.value == ShotPath(dir, n, jpgExt, prefix))
  {
    var c := Cont(existing, bases, i);
    var img := ChooseImage(dir, bases[i], c, jpgExt, prefix, present);
    if img.Some? && img.value != ShotPath(dir, bases[i], jpgExt, prefix) {
      assert c[0] in c;
    }
  }

  /** A value is among the present options exactly when some option holds
      it. */
  lemma {:induction false} SomesMembers(xs: seq<Option<int>>, n: int)
    ensures n in Somes(xs) <==> exists k :: 0 <= k < |xs| && xs[k] == Some(n)
  {
    if xs != [] {
      var init := xs[..|xs| - 1];
      SomesMembers(init, n);
      assert forall k :: 0 <= k < |init| ==> init[k] == xs[k];
      if n in Somes(init) {
        var k :| 0 <= k < |init| && init[k] == Some(n);
        assert xs[k] == Some(n);
      }
    }
  }

  lemma {:induction false} SomesNonNegative(xs: seq<Option<int>>)
    requires forall k :: 0 <= k < |xs| && xs[k].Some? ==> xs[k].value >= 0
    ensures NonNegative(Somes(xs))
  {
    if xs != [] {
      SomesNonNegative(xs[..|xs| - 1]);
    }
  }

  lemma SceneNumbersNonNegative(names: seq<string>, mp4Ext: string, prefix: string)
    ensures NonNegative(SceneNumbers(names, mp4Ext, prefix))
  {
    SomesNonNegative(Probe(names, mp4Ext, prefix));
  }

  /** Listing: a number is reported exactly when some entry carries it, and
      the report is ascending and free of duplicates. */
  lemma ListedScenes(names: seq<string>, mp4Ext: string, prefix: string, n: int)
    ensures n in SortedInts(SceneNumbers(names, mp4Ext, prefix)) <==>
      exists k :: 0 <= k < |names| && SceneNumber(names[k], mp4Ext, prefix) == Some(n)
  {
    SomesMembers(Probe(names, mp4Ext, prefix), n);
  }

  lemma {:induction false} LowerAppend(a: string, b: string)
    ensures Lower(a + b) == Lower(a) + Lower(b)
  {
    assert forall i :: 0 <= i < |a + b| ==> (a + b)[i] == if i < |a| then a[i] else b[i - |a|];
  }

  lemma LowerDigits(d: string)
    requires AllDigits(d)
    ensures Lower(d) == d
  {
  }

  lemma SceneFileLower(d: string)
    requires AllDigits(d)
    ensures Lower("scene_" + d + ".mp4") == "scene_" + d + ".mp4"
    ensures Lower("scene_") == "scene_" && Lower(".mp4") == ".mp4"
  {
    LowerAppend("scene_" + d, ".mp4");
    LowerAppend("scene_", d);
    LowerDigits(d);
    assert Lower("scene_") == "scene_";
    assert Lower(".mp4") == ".mp4";
  }

  /** The file `scene_<n>.mp4` is listed as scene `n`. */
  lemma SceneFileNumber(n: nat)
    ensures SceneNumber("scene_" + NatToString(n) + ".mp4", ".mp4", "scene_") == Some(n)
  {
    var d := NatToString(n);
    SceneFileLower(d);
    SceneFileEnds(d);
    SceneFileRun(d);
    NatToStringValue(n);
    SceneNumberOf("scene_" + d + ".mp4", ".mp4", "scene_", d);
  }

  lemma SceneFileEnds(d: string)
    ensures StartsWith("scene_" + d + ".mp4", "scene_") && EndsWith("scene_" + d + ".mp4", ".mp4")
  {
    var fn := "scene_" + d + ".mp4";
    assert fn[..6] == "scene_";
    assert fn[|fn| - 4..] == ".mp4";
  }

  lemma SceneFileRun(d: string)
    requires d != [] && AllDigits(d)
    ensures FirstDigitRun("scene_" + d + ".mp4") == Some(d)
  {
    assert forall i :: 0 <= i < |"scene_"| ==> !IsDigit("scene_"[i]);
    FirstDigitRunOf("scene_", d, ".mp4");
  }

  lemma SceneNumberOf(fn: string, mp4Ext: string, prefix: string, d: string)
    requires Lower(fn) == fn && Lower(mp4Ext) == mp4Ext && Lower(prefix) == prefix
    requires StartsWith(fn, prefix) && EndsWith(fn, mp4Ext) && FirstDigitRun(fn) == Some(d)
    ensures SceneNumber(fn, mp4Ext, prefix) == Some(DigitsValue(d))
  {
  }

  /** `safe_folder` leaves no slash, reserved character or whitespace. */
  lemma SafeFolderClean(name: string)
    ensures forall c :: c in SafeFolder(name) ==> !IsSlash(c) && !IsReserved(c) && !IsSpace(c)
  {
    var a := ReplaceRuns(Strip(name), IsSlash, '_');
    var b := ReplaceRuns(a, IsReserved, '_');
    var r := ReplaceRuns(b, IsSpace, '_');
    ReplaceRunsClears(Strip(name), IsSlash, '_');
    ReplaceRunsClears(a, IsReserved, '_');
    ReplaceRunsClears(b, IsSpace, '_');
    forall c | c in r ensures !IsSlash(c) && !IsReserved(c) && !IsSpace(c) {
      ReplaceRunsChars(b, IsSpace, '_', c);
      if c != '_' {
        ReplaceRunsChars(a, IsReserved, '_', c);
      }
    }
  }

  /** `safe_folder` is idempotent. */
  lemma SafeFolderIdempotent(name: string)
    ensures SafeFolder(SafeFolder(name)) == SafeFolder(name)
  {
    var r := SafeFolder(name);
    SafeFolderClean(name);
    assert forall i :: 0 <= i < |r| ==> r[i] in r;
    StripNoSpace(r);
    ReplaceRunsNone(r, IsSlash, '_');
    ReplaceRunsNone(r, IsReserved, '_');
    ReplaceRunsNone(r, IsSpace, '_');
  }
}
