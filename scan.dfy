/**
 scan.py: the spreadsheet rows that decide which campus videos are
 downloaded, and where each one goes (`results/<institution>/<file>`).
 */
module Scan {
  import opened Text
  import opened Paths

  // ---------------------------------------------------------------------
  // sanitize_folder_name

  predicate IsAlnum(c: char) { IsAsciiLetter(c) || IsDigit(c) }

  /** The characters a folder name keeps: alphanumerics, space, `.`, `_`. */
  predicate FolderChar(c: char) { IsAlnum(c) || c == ' ' || c == '.' || c == '_' }

  /** The generator of line 18: the characters of `name` that are kept. */
  function Kept(name: string): (r: string)
    ensures forall i :: 0 <= i < |r| ==> FolderChar(r[i])
    ensures |r| <= |name|
  {
    if name == [] then []
    else (if FolderChar(name[0]) then [name[0]] else []) + Kept(name[1..])
  }

  /** `sanitize_folder_name(name)`. */
  function SanitizeFolderName(name: string): (r: string)
    ensures |r| <= |name|
    ensures r != [] ==> r[|r| - 1] != ' '
  {
    RStrip(Kept(name))
  }

  /** `a` is `b` with some characters left out, the rest in order. */
  predicate IsSubsequence(a: string, b: string)
    decreases |b|
  {
    if a == [] then true
    else if b == [] then false
    else if a[0] == b[0] then IsSubsequence(a[1..], b[1..])
    else IsSubsequence(a, b[1..])
  }

  /** `rstrip()` removes trailing whitespace and nothing else. */
  lemma {:induction false} RStripPrefix(s: string)
    ensures RStrip(s) == s[..|RStrip(s)|]
    ensures forall i :: |RStrip(s)| <= i < |s| ==> IsSpace(s[i])
    decreases |s|
  {
    if s != [] && IsSpace(s[|s| - 1]) {
      RStripPrefix(s[..|s| - 1]);
    }
  }

  lemma {:induction false} KeptSubsequence(name: string)
    ensures IsSubsequence(Kept(name), name)
    decreases |name|
  {
    if name != [] {
      KeptSubsequence(name[1..]);
      if FolderChar(name[0]) {
        assert ([name[0]] + Kept(name[1..]))[1..] == Kept(name[1..]);
      } else {
        assert Kept(name) == Kept(name[1..]);
        TailSubsequence(Kept(name[1..]), name);
      }
    }
  }

  /** Skipping the first character of `b` keeps `a` a subsequence of it. */
  lemma {:induction false} TailSubsequence(a: string, b: string)
    requires b != [] && IsSubsequence(a, b[1..])
    ensures IsSubsequence(a, b)
    decreases |b|, 0
  {
    if a != [] && a[0] == b[0] {
      DropSubsequence(a, b[1..]);
    }
  }

  /** Leaving out the first character of a subsequence keeps it one. */
  lemma {:induction false} DropSubsequence(a: string, c: string)
    requires a != [] && IsSubsequence(a, c)
    ensures IsSubsequence(a[1..], c)
    decreases |c|, 1
  {
    if a[0] == c[0] {
      TailSubsequence(a[1..], c);
    } else {
      DropSubsequence(a, c[1..]);
      TailSubsequence(a[1..], c);
    }
  }

  /** Dropping the end of a subsequence leaves a subsequence. */
  lemma {:induction false} PrefixSubsequence(p: string, a: string, b: string)
    requires IsSubsequence(a, b) && |p| <= |a| && p == a[..|p|]
    ensures IsSubsequence(p, b)
    decreases |b|
  {
    if p != [] {
      if a[0] == b[0] {
        assert a[1..][..|p| - 1] == p[1..];
        PrefixSubsequence(p[1..], a[1..], b[1..]);
      } else {
        PrefixSubsequence(p, a, b[1..]);
      }
    }
  }

  /** Lines 17-18: the folder name holds only alphanumerics, space, `.`
      and `_`, is the input with characters left out in order, and does
      not end in a space; what the final `rstrip` cut were spaces. */
  lemma SanitizeFolderNameClean(name: string)
    ensures var r := SanitizeFolderName(name);
      && (forall i :: 0 <= i < |r| ==> FolderChar(r[i]))
      && IsSubsequence(r, name)
      && (r != [] ==> r[|r| - 1] != ' ')
      && r == Kept(name)[..|r|]
      && (forall i :: |r| <= i < |Kept(name)| ==> Kept(name)[i] == ' ')
  {
    var k := Kept(name);
    var r := RStrip(k);
    RStripPrefix(k);
    KeptSubsequence(name);
    PrefixSubsequence(r, k, name);
    forall i | 0 <= i < |r| ensures FolderChar(r[i]) {
      assert r[i] == k[i];
    }
    TrailingSpaces(k);
  }

  /** What `rstrip` cuts from kept characters are spaces. */
  lemma TrailingSpaces(k: string)
    requires forall i :: 0 <= i < |k| ==> FolderChar(k[i])
    ensures forall i :: |RStrip(k)| <= i < |k| ==> k[i] == ' '
  {
    RStripPrefix(k);
    forall i | |RStrip(k)| <= i < |k| ensures k[i] == ' ' {
      SpaceFolderChar(k[i]);
    }
  }

  lemma SpaceFolderChar(c: char)
    requires FolderChar(c) && IsSpace(c)
    ensures c == ' '
  {
  }

  lemma {:induction false} KeptAll(s: string)
    requires forall i :: 0 <= i < |s| ==> FolderChar(s[i])
    ensures Kept(s) == s
    decreases |s|
  {
    if s != [] {
      KeptAll(s[1..]);
    }
  }

  /** Sanitising a sanitised name changes nothing. */
  lemma SanitizeFolderNameIdempotent(name: string)
    ensures SanitizeFolderName(SanitizeFolderName(name)) == SanitizeFolderName(name)
  {
    var r := SanitizeFolderName(name);
    SanitizeFolderNameClean(name);
    KeptAll(r);
  }

  // ---------------------------------------------------------------------
  // the rows of scan_results.xlsx

  /** A spreadsheet cell as pandas hands it over: `None` for a missing
      column, NaN for an empty cell, else a string, number or boolean. */
  datatype Cell = Absent | NaN | Str(s: string) | Num(x: real) | Flag(b: bool)

  /** Python truthiness of a cell (NaN is truthy). */
  predicate Truthy(c: Cell) {
    match c
    case Absent => false
    case NaN => true
    case Str(s) => s != []
    case Num(x) => x != 0.0
    case Flag(b) => b
  }

  datatype Row = Row(video: Cell, url: Cell, primary: Cell)

  const ResultsDir: string := "results"
  const Edu: string := ".edu"

  /** What the loop does with one row. `UrlTypeError` is the `in` test of
      line 36 on a URL cell that is not a string, which ends the script. */
  datatype Action =
    | NoVideo
    | NotPrimary
    | NotEdu
    | UrlTypeError
    | Present(folder: string, target: string)
    | Download(video: string, folder: string, target: string)

  /** Line 41: the folder name of an institution URL; `netloc` is the
      network location `urlparse` finds in it. */
  function InstitutionName(url: string, netloc: string -> string): string {
    SanitizeFolderName(if netloc(url) != [] then netloc(url) else url)
  }

  function FolderOf(url: string, netloc: string -> string): string {
    PathJoin(ResultsDir, InstitutionName(url, netloc))
  }

  function TargetOf(video: string, url: string, netloc: string -> string): string {
    PathJoin(FolderOf(url, netloc), Basename(video))
  }

  /** `os.path.exists`: a file, or a directory, with or without trailing
      slashes. */
  predicate PathExists(files: set<string>, dirs: set<string>, p: string) {
    p in files || RStripSlashes(p) in dirs
  }

  /** The row has a non-blank video cell (line 31). */
  predicate HasVideo(row: Row) {
    row.video.Str? && Strip(row.video.s) != []
  }

  /** Line 36 raises `TypeError` on this row: it has a video, is primary,
      and its URL cell is not a string. */
  predicate Raises(row: Row) {
    HasVideo(row) && Truthy(row.primary) && !row.url.Str?
  }

  /** Lines 25-53 for one row, given the files and directories on disk. */
  function Classify(files: set<string>, dirs: set<string>, row: Row, netloc: string -> string): (a: Action)
    ensures a == NoVideo <==> !HasVideo(row)
    ensures (a.Present? || a.Download?) <==>
      row.video.Str? && Strip(row.video.s) != [] && Truthy(row.primary) &&
      row.url.Str? && Contains(row.url.s, Edu)
    ensures a.Download? ==> a.video == row.video.s
    ensures (a.Present? || a.Download?) ==>
      a.folder == FolderOf(row.url.s, netloc) && a.target == TargetOf(row.video.s, row.url.s, netloc) &&
      (a.Present? <==> PathExists(files, dirs + {RStripSlashes(a.folder)}, a.target))
  {
    if !row.video.Str? || Strip(row.video.s) == [] then NoVideo
    else if !Truthy(row.primary) then NotPrimary
    else if !row.url.Str? then UrlTypeError
    else if !Contains(row.url.s, Edu) then NotEdu
    else
      var folder := FolderOf(row.url.s, netloc);
      var target := PathJoin(folder, Basename(row.video.s));
      if PathExists(files, dirs + {RStripSlashes(folder)}, target) then Present(folder, target)
      else Download(row.video.s, folder, target)
  }

  /** The three skips and the crash of lines 31-38 are told apart: a row
      without a video, a row that is not primary and a URL without `.edu`
      are skipped; a URL cell that is not a string raises. */
  lemma ClassifyRaises(files: set<string>, dirs: set<string>, row: Row, netloc: string -> string)
    ensures var a := Classify(files, dirs, row, netloc);
      && (a == NotPrimary <==> HasVideo(row) && !Truthy(row.primary))
      && (a == UrlTypeError <==> Raises(row))
      && (a == NotEdu <==> HasVideo(row) && Truthy(row.primary) && row.url.Str? && !Contains(row.url.s, Edu))
  {
  }

  /** The disk after one row; `fetch` says whether the download of a video
      URL succeeds (a failed one is caught and writes nothing). */
  function FilesAfter(files: set<string>, a: Action, fetch: string -> bool): set<string> {
    if a.Download? && fetch(a.video) then files + {a.target} else files
  }

  function DirsAfter(dirs: set<string>, a: Action): set<string> {
    if a.Present? || a.Download? then dirs + {RStripSlashes(a.folder)} else dirs
  }

  datatype ScanOutcome = ScanOutcome(files: set<string>, dirs: set<string>, actions: seq<Action>)

  /** The main loop over the rows, which stops at the first type error. */
  function ScanFrom(files: set<string>, dirs: set<string>, rows: seq<Row>,
                    netloc: string -> string, fetch: string -> bool): (o: ScanOutcome)
    ensures files <= o.files && dirs <= o.dirs
    ensures 1 <= |o.actions| <= |rows| || (rows == [] && o.actions == [])
    decreases |rows|
  {
    if rows == [] then ScanOutcome(files, dirs, [])
    else
      var a := Classify(files, dirs, rows[0], netloc);
      if a == UrlTypeError then ScanOutcome(files, dirs, [a])
      else
        var o := ScanFrom(FilesAfter(files, a, fetch), DirsAfter(dirs, a), rows[1..], netloc, fetch);
        ScanOutcome(o.files, o.dirs, [a] + o.actions)
  }

  /** The run ends at the first row on which line 36 raises: that row's
      action is the type error, and no row after it is read. */
  lemma {:induction false} ScanStopsAt(files: set<string>, dirs: set<string>, rows: seq<Row>,
                                       netloc: string -> string, fetch: string -> bool, j: nat)
    requires j < |rows| && Raises(rows[j])
    requires forall i :: 0 <= i < j ==> !Raises(rows[i])
    ensures var o := ScanFrom(files, dirs, rows, netloc, fetch);
      |o.actions| == j + 1 && o.actions[j] == UrlTypeError &&
      forall i :: 0 <= i < j ==> o.actions[i] != UrlTypeError
    decreases j
  {
    var a := Classify(files, dirs, rows[0], netloc);
    if j > 0 {
      assert !Raises(rows[0]);
      forall i | 0 <= i < j - 1
        ensures !Raises(rows[1..][i])
      {
        assert rows[1..][i] == rows[i + 1];
      }
      ScanStopsAt(FilesAfter(files, a, fetch), DirsAfter(dirs, a), rows[1..], netloc, fetch, j - 1);
    }
  }

  /** Without a raising row the run reads every row, and no action is a
      type error. */
  lemma {:induction false} ScanReadsAll(files: set<string>, dirs: set<string>, rows: seq<Row>,
                                        netloc: string -> string, fetch: string -> bool)
    requires forall i :: 0 <= i < |rows| ==> !Raises(rows[i])
    ensures var o := ScanFrom(files, dirs, rows, netloc, fetch);
      |o.actions| == |rows| && forall i :: 0 <= i < |rows| ==> o.actions[i] != UrlTypeError
    decreases |rows|
  {
    if rows != [] {
      var a := Classify(files, dirs, rows[0], netloc);
      assert !Raises(rows[0]);
      forall i | 0 <= i < |rows| - 1
        ensures !Raises(rows[1..][i])
      {
        assert rows[1..][i] == rows[i + 1];
      }
      ScanReadsAll(FilesAfter(files, a, fetch), DirsAfter(dirs, a), rows[1..], netloc, fetch);
    }
  }

  /** One row of the main loop, seen from the outcome of the whole run. */
  lemma ScanStep(total: ScanOutcome, files: set<string>, dirs: set<string>, rest: seq<Row>,
                 netloc: string -> string, fetch: string -> bool, actions: seq<Action>)
    requires rest != []
    requires var o := ScanFrom(files, dirs, rest, netloc, fetch);
      total == ScanOutcome(o.files, o.dirs, actions + o.actions)
    ensures var a := Classify(files, dirs, rest[0], netloc);
      var files', dirs' := FilesAfter(files, a, fetch), DirsAfter(dirs, a);
      if a == UrlTypeError then total == ScanOutcome(files', dirs', actions + [a])
      else
        var o := ScanFrom(files', dirs', rest[1..], netloc, fetch);
        total == ScanOutcome(o.files, o.dirs, (actions + [a]) + o.actions)
  {
    var a := Classify(files, dirs, rest[0], netloc);
    if a != UrlTypeError {
      var o := ScanFrom(FilesAfter(files, a, fetch), DirsAfter(dirs, a), rest[1..], netloc, fetch);
      assert actions + ([a] + o.actions) == (actions + [a]) + o.actions;
    }
  }

  /** The results tree the script writes into. */
  class Downloads {
    var files: set<string>
    var dirs: set<string>

    /** Line 14: `results` exists. */
    constructor(files0: set<string>, dirs0: set<string>)
      ensures files == files0 && dirs == dirs0 + {ResultsDir}
    {
      files := files0;
      dirs := dirs0 + {ResultsDir};
    }

    method ScanRow(row: Row, netloc: string -> string, fetch: string -> bool) returns (a: Action)
      modifies this
      ensures a == Classify(old(files), old(dirs), row, netloc)
      ensures files == FilesAfter(old(files), a, fetch) && dirs == DirsAfter(old(dirs), a)
    {
      a := Classify(files, dirs, row, netloc);
      if a.Present? || a.Download? {
        MakeDirs(a.folder);
      }
      if a.Download? {
        Download(a.video, a.target, fetch);
      }
    }

    /** `os.makedirs(folder, exist_ok=True)`. */
    method MakeDirs(folder: string)
      modifies this
      ensures dirs == old(dirs) + {RStripSlashes(folder)} && files == old(files)
    {
      dirs := dirs + {RStripSlashes(folder)};
    }

    /** Lines 56-74: the file exists afterwards exactly when the request
        succeeded; a failure is only reported. */
    method Download(video: string, target: string, fetch: string -> bool)
      modifies this
      ensures files == (if fetch(video) then old(files) + {target} else old(files)) && dirs == old(dirs)
    {
      var ok := fetch(video);
      if ok {
        files := files + {target};
      }
    }

    method ScanRows(rows: seq<Row>, netloc: string -> string, fetch: string -> bool) returns (actions: seq<Action>)
      modifies this
      ensures ScanOutcome(files, dirs, actions) == ScanFrom(old(files), old(dirs), rows, netloc, fetch)
    {
      actions := [];
      ghost var total := ScanFrom(files, dirs, rows, netloc, fetch);
      var i := 0;
      assert rows[0..] == rows;
      while i < |rows|
        invariant 0 <= i <= |rows|
        invariant var o := ScanFrom(files, dirs, rows[i..], netloc, fetch);
          total == ScanOutcome(o.files, o.dirs, actions + o.actions)
      {
        ScanStep(total, files, dirs, rows[i..], netloc, fetch, actions);
        SliceTail(rows, i);
        var a := ScanRow(rows[i], netloc, fetch);
        actions := actions + [a];
        if a == UrlTypeError {
          return;
        }
        i := i + 1;
      }
      assert rows[i..] == [];
    }
  }

  // ---------------------------------------------------------------------
  // properties

  /** The targets of the downloads among `acts`. */
  function Fetched(acts: seq<Action>): set<string> {
    set a | a in acts && a.Download? :: a.target
  }

  /** Files are only ever added, and only at the target of a download. */
  lemma {:induction false} ScanOnlyAddsTargets(files: set<string>, dirs: set<string>, rows: seq<Row>,
                                              netloc: string -> string, fetch: string -> bool)
    ensures var o := ScanFrom(files, dirs, rows, netloc, fetch);
      o.files <= files + Fetched(o.actions)
    decreases |rows|
  {
    if rows != [] {
      var a := Classify(files, dirs, rows[0], netloc);
      if a != UrlTypeError {
        var files' := FilesAfter(files, a, fetch);
        var o := ScanFrom(files', DirsAfter(dirs, a), rows[1..], netloc, fetch);
        ScanOnlyAddsTargets(files', DirsAfter(dirs, a), rows[1..], netloc, fetch);
        assert files' <= files + Fetched([a]);
        assert Fetched([a] + o.actions) == Fetched([a]) + Fetched(o.actions);
      }
    }
  }

  /** Nothing on disk is lost. */
  lemma {:induction false} ScanKeeps(files: set<string>, dirs: set<string>, rows: seq<Row>,
                                    netloc: string -> string, fetch: string -> bool)
    ensures files <= ScanFrom(files, dirs, rows, netloc, fetch).files
    ensures dirs <= ScanFrom(files, dirs, rows, netloc, fetch).dirs
    decreases |rows|
  {
    if rows != [] {
      var a := Classify(files, dirs, rows[0], netloc);
      if a != UrlTypeError {
        ScanKeeps(FilesAfter(files, a, fetch), DirsAfter(dirs, a), rows[1..], netloc, fetch);
      }
    }
  }

  /** A row whose file is already there is not fetched again: a second row
      for the same video and institution after a successful download is
      only reported present. */
  lemma NoRefetch(files: set<string>, dirs: set<string>, row: Row, netloc: string -> string, fetch: string -> bool)
    requires Classify(files, dirs, row, netloc).Download? && fetch(row.video.s)
    ensures var a := Classify(files, dirs, row, netloc);
      Classify(FilesAfter(files, a, fetch), DirsAfter(dirs, a), row, netloc) == Present(a.folder, a.target)
  {
  }

  lemma RStripSlashesSlash(x: string)
    ensures RStripSlashes(x + "/") == RStripSlashes(x)
  {
    assert (x + "/")[..|x|] == x;
  }

  /** A video URL ending in `/` has an empty base name, so its target is
      the institution folder itself, which line 45 has just made: such a
      row is never downloaded. */
  lemma SlashVideoNeverFetched(files: set<string>, dirs: set<string>, row: Row, netloc: string -> string)
    requires row.video.Str? && EndsWith(row.video.s, "/")
    ensures !Classify(files, dirs, row, netloc).Download?
  {
    var v := row.video.s;
    assert Basename(v) == [] by {
      assert LastIndexOf(v, '/') == Some(|v| - 1);
    }
    if Classify(files, dirs, row, netloc).Present? || Classify(files, dirs, row, netloc).Download? {
      var folder := FolderOf(row.url.s, netloc);
      if folder == [] || EndsWith(folder, "/") {
        assert PathJoin(folder, []) == folder;
      } else {
        assert PathJoin(folder, []) == folder + "/";
        RStripSlashesSlash(folder);
      }
    }
  }

  /** The institution name never holds a `/`. */
  lemma NameHasNoSlash(url: string, netloc: string -> string)
    ensures '/' !in InstitutionName(url, netloc)
  {
    var name := InstitutionName(url, netloc);
    SanitizeFolderNameClean(if netloc(url) != [] then netloc(url) else url);
    forall i | 0 <= i < |name| ensures name[i] != '/' {
      assert FolderChar(name[i]);
    }
  }

  /** The target is inside `results`, in a folder whose name is a clean
      institution name. */
  lemma TargetInResults(video: string, url: string, netloc: string -> string)
    ensures FolderOf(url, netloc) == ResultsDir + "/" + InstitutionName(url, netloc)
    ensures StartsWith(TargetOf(video, url, netloc), ResultsDir + "/")
  {
    var folder := FolderOf(url, netloc);
    FolderInResults(url, netloc);
    var b := Basename(video);
    assert !StartsWith(b, "/") by {
      if b != [] { assert b[0] in b; }
    }
    PathJoinParts(folder, b);
    StartsWithFolder(PathJoin(folder, b), ResultsDir + "/", InstitutionName(url, netloc));
  }

  lemma FolderInResults(url: string, netloc: string -> string)
    ensures FolderOf(url, netloc) == ResultsDir + "/" + InstitutionName(url, netloc)
  {
    var name := InstitutionName(url, netloc);
    NameHasNoSlash(url, netloc);
    assert !StartsWith(name, "/") by {
      if name != [] { assert name[0] in name; }
    }
  }

  lemma StartsWithFolder(s: string, p: string, rest: string)
    requires StartsWith(s, p + rest)
    ensures StartsWith(s, p)
  {
    assert s[..|p|] == (p + rest)[..|p|];
  }
}
