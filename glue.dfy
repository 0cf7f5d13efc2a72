/**
 `glue.py`: for every site, delete the old screenshots of the scene
 directory, then read `glue.csv` row by row; each row names a destination
 scene and the scenes to concatenate into it, and once ffmpeg's concat
 succeeds the other listed scene files are deleted.

 The directory tree is a map from site to the set of file names in
 `results/<site>/scenes`; ffmpeg's exit status is an input.
 */
module Glue {
  import opened Text
  import opened RangeCodec
  import opened Sorting
  import opened Continuation
  import opened Paths

  // ---------------------------------------------------------------------
  // reading glue.csv

  /** The lines `csv.reader` iterates over: the text split at newlines,
      without the empty piece after a final newline. */
  function Lines(text: string): seq<string> {
    var ps := Split(text, '\n');
    if ps[|ps| - 1] == [] then ps[..|ps| - 1] else ps
  }

  /** `csv.reader` on one line without quotes: an empty line is the empty
      row, any other line its comma fields. */
  function CsvRow(line: string): seq<string> {
    if line == [] then [] else Split(line, ',')
  }

  /** `[int(num.strip()) for num in row]` as glue.py writes it: `None` where
      `int()` raises ValueError. */
  function ParseRowAsWritten(row: seq<string>): (r: Option<seq<int>>)
    ensures r.Some? <==> forall k :: 0 <= k < |row| ==> ParseInt(Strip(row[k])).Some?
    ensures r.Some? ==> (|r.value| == |row| &&
      forall k :: 0 <= k < |row| ==> r.value[k] == ParseInt(Strip(row[k])).value)
    decreases |row|
  {
    if row == [] then Some([])
    else
      var head, tail := ParseInt(Strip(row[0])), ParseRowAsWritten(row[1..]);
      assert forall k :: 1 <= k < |row| ==> row[k] == row[1..][k - 1];
      if head.Some? && tail.Some? then Some([head.value] + tail.value) else None
  }

  /** The row parser glue.csv's format calls for: every field expanded the
      way `expand_range_str` expands it, so `base,2-4,6` names the scenes
      `base, 2, 3, 4, 6`. `None` where a field is malformed or the row names
      no scene at all. */
  function ParseRow(row: seq<string>): (r: Option<seq<int>>)
    ensures r.Some? ==> r.value != []
  {
    match ExpandParts(row)
    case Some(ns) => if ns == [] then None else Some(ns)
    case None => None
  }

  // ---------------------------------------------------------------------
  // the scene directory

  /** `scene_<n>.mp4`. */
  function SceneFile(n: int): string {
    "scene_" + IntToString(n) + ".mp4"
  }

  /** `re.match(r"scene_\d+_screenshot\.jpg", name)`: the pattern must match
      at the start of the name; anything may follow it. */
  predicate IsScreenshotName(name: string) {
    && StartsWith(name, "scene_")
    && var d := DigitPrefix(name[6..]);
    && d != []
    && StartsWith(name[6 + |d|..], "_screenshot.jpg")
  }

  /** The directory after the screenshot sweep. */
  function WithoutScreenshots(files: set<string>): set<string> {
    set f | f in files && !IsScreenshotName(f)
  }

  /** The concat list: the listed scene files that exist, in row order,
      destination included. */
  function ConcatList(files: set<string>, nums: seq<int>): (r: seq<string>)
    ensures forall f :: f in r ==> f in files
    decreases |nums|
  {
    if nums == [] then []
    else
      var f := SceneFile(nums[|nums| - 1]);
      ConcatList(files, nums[..|nums| - 1]) + (if f in files then [f] else [])
  }

  /** The files the success branch deletes: every listed scene but the
      destination. */
  function Sources(nums: seq<int>, dest: int): set<string> {
    set n | n in nums && n != dest :: SceneFile(n)
  }

  /** The directory after one row: on success ffmpeg has written the
      destination and the other listed scenes are gone; on failure nothing
      changes. */
  function AfterRow(files: set<string>, nums: seq<int>, ok: bool): set<string>
    requires nums != []
  {
    if ok then (files + {SceneFile(nums[0])}) - Sources(nums, nums[0]) else files
  }

  /** ffmpeg's exit status, as success or failure, for row `k` of
      glue.csv at a given site. */
  type Ffmpeg = (string, nat) -> bool

  /** The rows of glue.csv applied to one site's scene files, one after
      another from row number `k` on. */
  function ApplyRows(files: set<string>, rows: seq<string>, k: nat, site: string, ok: Ffmpeg): (o: Outcome)
    ensures (forall j :: k <= j ==> !ok(site, j)) ==> o.files == files
    decreases |rows|
  {
    if rows == [] then Outcome(files, false)
    else
      var row := CsvRow(rows[0]);
      if row == [] then ApplyRows(files, rows[1..], k + 1, site, ok)
      else
        match ParseRow(row)
        case None => Outcome(files, true)
        case Some(nums) => ApplyRows(AfterRow(files, nums, ok(site, k)), rows[1..], k + 1, site, ok)
  }

  /** Lines 81-88: the concat list, written one existing file at a time. */
  method WriteConcatList(files: set<string>, nums: seq<int>) returns (listed: seq<string>)
    ensures listed == ConcatList(files, nums)
  {
    listed := [];
    var i := 0;
    while i < |nums|
      invariant 0 <= i <= |nums|
      invariant listed == ConcatList(files, nums[..i])
    {
      ConcatListStep(files, nums, i);
      var f := SceneFile(nums[i]);
      if f in files {
        listed := listed + [f];
      }
      i := i + 1;
    }
    assert nums[..i] == nums;
  }

  lemma ConcatListStep(files: set<string>, nums: seq<int>, i: nat)
    requires i < |nums|
    ensures var f := SceneFile(nums[i]);
      ConcatList(files, nums[..i + 1]) == ConcatList(files, nums[..i]) + (if f in files then [f] else [])
  {
    assert nums[..i + 1][..i] == nums[..i];
  }

  /** Lines 102-114: after ffmpeg has written the destination, every listed
      scene other than it that exists is removed. */
  method DeleteSources(files: set<string>, nums: seq<int>) returns (after: set<string>)
    requires nums != []
    ensures after == AfterRow(files, nums, true)
  {
    var dest := nums[0];
    after := files + {SceneFile(dest)};
    var i := 0;
    while i < |nums|
      invariant 0 <= i <= |nums|
      invariant after == (files + {SceneFile(dest)}) - Sources(nums[..i], dest)
    {
      SourcesSnoc(nums[..i], nums[i], dest);
      assert nums[..i + 1] == nums[..i] + [nums[i]];
      if nums[i] != dest && SceneFile(nums[i]) in after {
        after := after - {SceneFile(nums[i])};
      }
      i := i + 1;
    }
    assert nums[..i] == nums;
  }

  lemma SourcesSnoc(nums: seq<int>, n: int, dest: int)
    ensures Sources(nums + [n], dest) == Sources(nums, dest) + (if n != dest then {SceneFile(n)} else {})
  {
    var l := Sources(nums + [n], dest);
    var r := Sources(nums, dest) + (if n != dest then {SceneFile(n)} else {});
    forall f | f in l ensures f in r {
      var m :| m in nums + [n] && m != dest && SceneFile(m) == f;
      if m != n { assert m in nums; }
    }
    forall f | f in r ensures f in l {
      if f in Sources(nums, dest) {
        var m :| m in nums && m != dest && SceneFile(m) == f;
        assert m in nums + [n];
      } else {
        assert n in nums + [n];
      }
    }
  }

  /** `capture_middle_frame` (lines 29-51) on the file `f`, with the
      outcome `c`. ffprobe runs first, so a raise leaves the directory as it
      was; otherwise the old `<stem>_screenshot.jpg` is deleted and only a
      written grab puts a new one in its place. */
  function Captured(files: set<string>, f: string, c: Capture): (o: Outcome)
    ensures o.raised <==> c == Unreadable
    ensures c != Unreadable ==> (ScreenshotName(f) in o.files <==> c == Written)
    ensures forall x :: x != ScreenshotName(f) ==> (x in o.files <==> x in files)
  {
    match c
    case Unreadable => Outcome(files, true)
    case NotWritten => Outcome(files - {ScreenshotName(f)}, false)
    case Written => Outcome(files + {ScreenshotName(f)}, false)
  }

  /** Lines 118-127: every entry of the listing but `.DS_Store` that is
      still a file is captured in turn, up to the first capture that
      raises. */
  function Recapture(files: set<string>, listing: seq<string>, site: string, grab: Grab): Outcome
    decreases |listing|
  {
    if listing == [] then Outcome(files, false)
    else
      var f := listing[0];
      if f == DsStore || f !in files then Recapture(files, listing[1..], site, grab)
      else
        var o := Captured(files, f, grab(site, f));
        if o.raised then o else Recapture(o.files, listing[1..], site, grab)
  }

  /** The screenshots of the listed entries. */
  function ListedShots(listing: seq<string>): set<string> {
    set g | g in listing && g != DsStore :: ScreenshotName(g)
  }

  lemma ListedShotsCons(listing: seq<string>)
    requires listing != []
    ensures ListedShots(listing) ==
      ListedShots(listing[1..]) + (if listing[0] != DsStore then {ScreenshotName(listing[0])} else {})
  {
    assert forall g :: g in listing <==> g == listing[0] || g in listing[1..];
  }

  /** The whole tree after one site, and whether it raised. */
  datatype TreeOutcome = TreeOutcome(scenes: map<string, set<string>>, raised: bool)

  /** Lines 53-127 for one site: a missing scene directory raises at once;
      otherwise the sweep, the rows, and, unless a row raised, the
      screenshot recapture over the directory's listing. */
  function SiteOutcome(scenes: map<string, set<string>>, site: string, text: string, ok: Ffmpeg, grab: Grab,
                       listdir: Listdir): TreeOutcome
  {
    if site !in scenes then TreeOutcome(scenes, true)
    else
      var o := ApplyRows(WithoutScreenshots(scenes[site]), Lines(text), 0, site, ok);
      if o.raised then TreeOutcome(scenes[site := o.files], true)
      else
        var r := Recapture(o.files, listdir(o.files), site, grab);
        TreeOutcome(scenes[site := r.files], r.raised)
  }

  /** The script's loop over the configured sites, ending at the first one
      that raises. */
  function AllSites(scenes: map<string, set<string>>, sites: seq<string>, text: string, ok: Ffmpeg, grab: Grab,
                    listdir: Listdir): TreeOutcome
    decreases |sites|
  {
    if sites == [] then TreeOutcome(scenes, false)
    else
      var o := SiteOutcome(scenes, sites[0], text, ok, grab, listdir);
      if o.raised then o else AllSites(o.scenes, sites[1..], text, ok, grab, listdir)
  }

  /** One site of the loop, seen from the outcome of the remaining sites. */
  lemma SitesStep(scenes: map<string, set<string>>, sites: seq<string>, i: nat, text: string, ok: Ffmpeg,
                  grab: Grab, listdir: Listdir, after: map<string, set<string>>, raised: bool)
    requires i < |sites| && TreeOutcome(after, raised) == SiteOutcome(scenes, sites[i], text, ok, grab, listdir)
    ensures raised ==> AllSites(scenes, sites[i..], text, ok, grab, listdir) == TreeOutcome(after, raised)
    ensures !raised ==>
      AllSites(scenes, sites[i..], text, ok, grab, listdir) == AllSites(after, sites[i + 1..], text, ok, grab, listdir)
  {
    SliceTail(sites, i);
  }

  lemma UpdateTwice(m: map<string, set<string>>, k: string, a: set<string>, b: set<string>)
    ensures m[k := a][k := b] == m[k := b]
  {
  }

  /** The tree of scene directories, site by site. */
  class ResultsTree {
    var scenes: map<string, set<string>>

    constructor(scenes0: map<string, set<string>>)
      ensures scenes == scenes0
    {
      scenes := scenes0;
    }

    /** Lines 60-67: every screenshot of the site's scene directory is
        removed. */
    method RemoveScreenshots(site: string)
      requires site in scenes
      modifies this
      ensures scenes == old(scenes)[site := WithoutScreenshots(old(scenes)[site])]
    {
      var todo := scenes[site];
      ghost var start := scenes[site];
      while todo != {}
        invariant site in scenes && todo <= start
        invariant scenes == old(scenes)[site := scenes[site]]
        invariant forall f :: f in scenes[site] <==> f in start && (f in todo || !IsScreenshotName(f))
        decreases |todo|
      {
        var f :| f in todo;
        if IsScreenshotName(f) {
          scenes := scenes[site := scenes[site] - {f}];
        }
        todo := todo - {f};
      }
      assert scenes[site] == WithoutScreenshots(start);
    }

    /** Lines 80-114 for one parsed row: write the concat list, run ffmpeg
        (`ok` is its success), and on success delete the sources. Returns
        the concat list handed to ffmpeg. */
    method GlueRow(site: string, nums: seq<int>, ok: bool) returns (listed: seq<string>)
      requires site in scenes && nums != []
      modifies this
      ensures listed == ConcatList(old(scenes)[site], nums)
      ensures scenes == old(scenes)[site := AfterRow(old(scenes)[site], nums, ok)]
    {
      var files := scenes[site];
      listed := WriteConcatList(files, nums);
      if ok {
        var after := DeleteSources(files, nums);
        scenes := scenes[site := after];
      }
    }

    /** Lines 53-127 for one site: the screenshot sweep, every row of
        `glue.csv`, then the screenshot recapture. A site without a scene
        directory, a row that does not parse, or a capture whose ffprobe
        output is no number raises and ends the script. */
    method GlueSite(site: string, text: string, ok: Ffmpeg, grab: Grab, listdir: Listdir) returns (raised: bool)
      modifies this
      ensures TreeOutcome(scenes, raised) == SiteOutcome(old(scenes), site, text, ok, grab, listdir)
    {
      if site !in scenes {
        return true;
      }
      ghost var start := scenes;
      ghost var o := ApplyRows(WithoutScreenshots(start[site]), Lines(text), 0, site, ok);
      RemoveScreenshots(site);
      raised := GlueRows(site, Lines(text), ok);
      assert raised == o.raised && scenes[site] == o.files;
      UpdateTwice(start, site, WithoutScreenshots(start[site]), o.files);
      assert scenes == start[site := o.files];
      if !raised {
        ghost var r := Recapture(o.files, listdir(o.files), site, grab);
        raised := RecaptureScreenshots(site, grab, listdir);
        UpdateTwice(start, site, o.files, r.files);
      }
    }

    /** Lines 29-51 on the file `f` of the site's scene directory. */
    method CaptureMiddleFrame(site: string, f: string, c: Capture) returns (raised: bool)
      requires site in scenes
      modifies this
      ensures var o := Captured(old(scenes)[site], f, c);
        raised == o.raised && scenes == old(scenes)[site := o.files]
    {
      if c == Unreadable {
        assert scenes == old(scenes)[site := old(scenes)[site]];
        return true;
      }
      var shot := ScreenshotName(f);
      var files := scenes[site] - {shot};
      if c == Written {
        files := files + {shot};
      }
      assert files == Captured(scenes[site], f, c).files;
      scenes := scenes[site := files];
      raised := false;
    }

    /** Lines 117-127: the listing taken after the rows, each entry that is
        still a file captured in turn. */
    method RecaptureScreenshots(site: string, grab: Grab, listdir: Listdir) returns (raised: bool)
      requires site in scenes
      modifies this
      ensures var o := Recapture(old(scenes)[site], listdir(old(scenes)[site]), site, grab);
        raised == o.raised && scenes == old(scenes)[site := o.files]
    {
      var listing := listdir(scenes[site]);
      ghost var goal := Recapture(scenes[site], listing, site, grab);
      var i := 0;
      assert listing[0..] == listing;
      while i < |listing|
        invariant 0 <= i <= |listing| && site in scenes
        invariant scenes == old(scenes)[site := scenes[site]]
        invariant goal == Recapture(scenes[site], listing[i..], site, grab)
      {
        SliceTail(listing, i);
        var f := listing[i];
        if f == DsStore || f !in scenes[site] {
          i := i + 1;
          continue;
        }
        ghost var before := scenes[site];
        raised := CaptureMiddleFrame(site, f, grab(site, f));
        UpdateTwice(old(scenes), site, before, scenes[site]);
        if raised {
          return;
        }
        i := i + 1;
      }
      assert listing[i..] == [];
      raised := false;
    }

    /** The script's loop over the configured sites. */
    method GlueSites(sites: seq<string>, text: string, ok: Ffmpeg, grab: Grab, listdir: Listdir) returns (raised: bool)
      modifies this
      ensures TreeOutcome(scenes, raised) == AllSites(old(scenes), sites, text, ok, grab, listdir)
    {
      ghost var goal := AllSites(scenes, sites, text, ok, grab, listdir);
      var i := 0;
      raised := false;
      assert sites[0..] == sites;
      while i < |sites|
        invariant 0 <= i <= |sites|
        invariant goal == AllSites(scenes, sites[i..], text, ok, grab, listdir)
      {
        ghost var before := scenes;
        raised := GlueSite(sites[i], text, ok, grab, listdir);
        SitesStep(before, sites, i, text, ok, grab, listdir, scenes, raised);
        if raised {
          return;
        }
        i := i + 1;
      }
      assert sites[i..] == [];
    }

    /** Lines 70-114: the rows of glue.csv, in order, until one raises. */
    method GlueRows(site: string, rows: seq<string>, ok: Ffmpeg) returns (raised: bool)
      requires site in scenes
      modifies this
      ensures var o := ApplyRows(old(scenes)[site], rows, 0, site, ok);
        raised == o.raised && scenes == old(scenes)[site := o.files]
    {
      ghost var goal := ApplyRows(scenes[site], rows, 0, site, ok);
      var i := 0;
      assert rows[0..] == rows;
      while i < |rows|
        invariant 0 <= i <= |rows| && site in scenes
        invariant scenes == old(scenes)[site := scenes[site]]
        invariant goal == ApplyRows(scenes[site], rows[i..], i, site, ok)
      {
        var row := CsvRow(rows[i]);
        if row == [] {
          ApplyBlank(scenes[site], rows, i, site, ok);
          i := i + 1;
          continue;
        }
        var nums := ParseRow(row);
        if nums.None? {
          ApplyFail(scenes[site], rows, i, site, ok);
          return true;
        }
        ApplyRow(scenes[site], rows, i, site, ok);
        ghost var before := scenes[site];
        var _ := GlueRow(site, nums.value, ok(site, i));
        UpdateTwice(old(scenes), site, before, scenes[site]);
        i := i + 1;
      }
      assert rows[i..] == [];
      raised := false;
    }
  }

  lemma ApplyBlank(files: set<string>, rows: seq<string>, i: nat, site: string, ok: Ffmpeg)
    requires i < |rows| && CsvRow(rows[i]) == []
    ensures ApplyRows(files, rows[i..], i, site, ok) == ApplyRows(files, rows[i + 1..], i + 1, site, ok)
  {
    assert rows[i..][1..] == rows[i + 1..];
  }

  lemma ApplyFail(files: set<string>, rows: seq<string>, i: nat, site: string, ok: Ffmpeg)
    requires i < |rows| && CsvRow(rows[i]) != [] && ParseRow(CsvRow(rows[i])).None?
    ensures ApplyRows(files, rows[i..], i, site, ok) == Outcome(files, true)
  {
  }

  lemma ApplyRow(files: set<string>, rows: seq<string>, i: nat, site: string, ok: Ffmpeg)
    requires i < |rows| && CsvRow(rows[i]) != [] && ParseRow(CsvRow(rows[i])).Some?
    ensures ApplyRows(files, rows[i..], i, site, ok) ==
      ApplyRows(AfterRow(files, ParseRow(CsvRow(rows[i])).value, ok(site, i)), rows[i + 1..], i + 1, site, ok)
  {
    assert rows[i..][1..] == rows[i + 1..];
  }

  /** The run over all sites touches only the scene directories of the
      listed sites, creates none, and finishes only when every listed site
      has one. */
  lemma {:induction false} AllSitesFrame(scenes: map<string, set<string>>, sites: seq<string>, text: string, ok: Ffmpeg,
                                        grab: Grab, listdir: Listdir)
    decreases |sites|
    ensures AllSites(scenes, sites, text, ok, grab, listdir).scenes.Keys == scenes.Keys
    ensures forall s :: s in scenes && s !in sites ==> AllSites(scenes, sites, text, ok, grab, listdir).scenes[s] == scenes[s]
    ensures !AllSites(scenes, sites, text, ok, grab, listdir).raised ==> forall s :: s in sites ==> s in scenes
  {
    if sites != [] {
      var o := SiteOutcome(scenes, sites[0], text, ok, grab, listdir);
      if !o.raised {
        AllSitesFrame(o.scenes, sites[1..], text, ok, grab, listdir);
        assert forall s :: s in sites ==> s == sites[0] || s in sites[1..];
      }
    }
  }

  // ---------------------------------------------------------------------
  // properties of one row

  lemma IntToStringInjective(a: int, b: int)
    requires IntToString(a) == IntToString(b)
    ensures a == b
  {
    if a < 0 && b < 0 {
      assert NatToString(-a) == IntToString(a)[1..];
      NatToStringInjective(-a, -b);
    } else if a >= 0 && b >= 0 {
      NatToStringInjective(a, b);
    }
  }

  lemma SceneFileInjective(a: int, b: int)
    requires SceneFile(a) == SceneFile(b)
    ensures a == b
  {
    var sa := IntToString(a);
    var sb := IntToString(b);
    assert SceneFile(a)[6..|SceneFile(a)| - 4] == sa;
    assert SceneFile(b)[6..|SceneFile(b)| - 4] == sb;
    IntToStringInjective(a, b);
  }

  /** A failed concat deletes nothing. */
  lemma FailedRowKeepsAll(files: set<string>, nums: seq<int>)
    requires nums != []
    ensures AfterRow(files, nums, false) == files
  {
  }

  /** A successful concat leaves the destination and none of the other
      listed scenes. */
  lemma SucceededRow(files: set<string>, nums: seq<int>)
    requires nums != []
    ensures SceneFile(nums[0]) in AfterRow(files, nums, true)
    ensures forall n :: n in nums && n != nums[0] ==> SceneFile(n) !in AfterRow(files, nums, true)
  {
    if SceneFile(nums[0]) in Sources(nums, nums[0]) {
      var n :| n in nums && n != nums[0] && SceneFile(n) == SceneFile(nums[0]);
      SceneFileInjective(n, nums[0]);
    }
  }

  /** A row never deletes a file it does not name. */
  lemma RowKeepsOthers(files: set<string>, nums: seq<int>, ok: bool, f: string)
    requires nums != [] && f in files
    requires forall n :: n in nums ==> SceneFile(n) != f
    ensures f in AfterRow(files, nums, ok)
  {
  }

  /** A listed scene file that does not exist is simply left out of the
      concat list. */
  lemma {:induction false} MissingSourceSkipped(files: set<string>, nums: seq<int>, n: int)
    requires SceneFile(n) !in files
    ensures SceneFile(n) !in ConcatList(files, nums)
  {
  }

  /** ... and every existing listed scene is in it. */
  lemma {:induction false} ExistingSourceListed(files: set<string>, nums: seq<int>, n: int)
    requires n in nums && SceneFile(n) in files
    ensures SceneFile(n) in ConcatList(files, nums)
  {
    var last := nums[|nums| - 1];
    if last != n {
      assert n in nums[..|nums| - 1] by {
        var j :| 0 <= j < |nums| && nums[j] == n;
        assert nums[..|nums| - 1][j] == n;
      }
      ExistingSourceListed(files, nums[..|nums| - 1], n);
    }
  }

  /** Over a whole site, a file that is not a screenshot and that no row of
      `glue.csv` names is never deleted. */
  lemma {:induction false} UnnamedFilesSurvive(files: set<string>, rows: seq<string>, k: nat, site: string, ok: Ffmpeg, f: string)
    requires f in files
    requires forall j, n :: 0 <= j < |rows| && ParseRow(CsvRow(rows[j])).Some? && n in ParseRow(CsvRow(rows[j])).value ==> SceneFile(n) != f
    decreases |rows|
    ensures f in ApplyRows(files, rows, k, site, ok).files
  {
    if rows != [] {
      var row := CsvRow(rows[0]);
      if row != [] && ParseRow(row).Some? {
        var nums := ParseRow(row).value;
        RowKeepsOthers(files, nums, ok(site, k), f);
        UnnamedFilesSurvive(AfterRow(files, nums, ok(site, k)), rows[1..], k + 1, site, ok, f);
      } else if row == [] {
        UnnamedFilesSurvive(files, rows[1..], k + 1, site, ok, f);
      }
    }
  }

  /** ... and the screenshot sweep removes exactly the screenshots. */
  lemma SweepKeepsOthers(files: set<string>, f: string)
    ensures f in WithoutScreenshots(files) <==> f in files && !IsScreenshotName(f)
  {
  }

  /** When every capture writes its grab, the recapture finishes and adds
      exactly the screenshots of the listed entries. */
  lemma {:induction false} RecapturedShots(files: set<string>, listing: seq<string>, site: string, grab: Grab)
    requires forall j :: 0 <= j < |listing| ==>
      listing[j] in files && (listing[j] == DsStore || grab(site, listing[j]) == Written)
    ensures Recapture(files, listing, site, grab) == Outcome(files + ListedShots(listing), false)
    decreases |listing|
  {
    if listing != [] {
      var f := listing[0];
      var rest := listing[1..];
      ListedShotsCons(listing);
      var next := if f == DsStore then files else files + {ScreenshotName(f)};
      forall j | 0 <= j < |rest|
        ensures rest[j] in next && (rest[j] == DsStore || grab(site, rest[j]) == Written)
      {
        assert rest[j] == listing[j + 1];
      }
      RecapturedShots(next, rest, site, grab);
    }
  }

  /** A screenshot that was not there and that no listed entry's grab
      writes is not there afterwards either: a failed grab leaves no
      screenshot behind. */
  lemma {:induction false} UnwrittenShotAbsent(files: set<string>, listing: seq<string>, site: string, grab: Grab,
                                              x: string)
    requires x !in files
    requires forall j :: 0 <= j < |listing| && listing[j] != DsStore && ScreenshotName(listing[j]) == x ==>
      grab(site, listing[j]) != Written
    ensures x !in Recapture(files, listing, site, grab).files
    decreases |listing|
  {
    if listing != [] {
      var f := listing[0];
      var rest := listing[1..];
      forall j | 0 <= j < |rest| && rest[j] != DsStore && ScreenshotName(rest[j]) == x
        ensures grab(site, rest[j]) != Written
      {
        assert rest[j] == listing[j + 1];
      }
      if f == DsStore || f !in files {
        UnwrittenShotAbsent(files, rest, site, grab, x);
      } else {
        var o := Captured(files, f, grab(site, f));
        if !o.raised {
          UnwrittenShotAbsent(o.files, rest, site, grab, x);
        }
      }
    }
  }

  /** The recapture touches only the screenshots of the listed entries. */
  lemma {:induction false} RecaptureKeeps(files: set<string>, listing: seq<string>, site: string, grab: Grab,
                                         x: string)
    requires forall j :: 0 <= j < |listing| && listing[j] != DsStore ==> ScreenshotName(listing[j]) != x
    ensures x in Recapture(files, listing, site, grab).files <==> x in files
    decreases |listing|
  {
    if listing != [] {
      var f := listing[0];
      var rest := listing[1..];
      forall j | 0 <= j < |rest| && rest[j] != DsStore
        ensures ScreenshotName(rest[j]) != x
      {
        assert rest[j] == listing[j + 1];
      }
      if f == DsStore || f !in files {
        RecaptureKeeps(files, rest, site, grab, x);
      } else {
        var o := Captured(files, f, grab(site, f));
        if !o.raised {
          RecaptureKeeps(o.files, rest, site, grab, x);
        }
      }
    }
  }

  /** A listed entry whose capture raises once the recapture reaches it. */
  predicate RaisingEntry(f: string, site: string, grab: Grab) {
    f != DsStore && grab(site, f) == Unreadable
  }

  /** No listed entry is the screenshot of a listed entry, as after the
      sweep when the directory holds scene clips. */
  predicate NoShotListed(listing: seq<string>) {
    forall g, h :: g in listing && h in listing ==> ScreenshotName(g) != h
  }

  /** The first capture of such a listing keeps the rest of it in the
      directory, and the rest is such a listing again. */
  lemma RestListed(files: set<string>, listing: seq<string>, site: string, grab: Grab)
    requires listing != [] && NoShotListed(listing)
    requires forall g :: g in listing ==> g in files
    ensures var f := listing[0];
      var o := if f == DsStore then Outcome(files, false) else Captured(files, f, grab(site, f));
      (forall g :: g in listing[1..] ==> g in o.files) && NoShotListed(listing[1..])
  {
    assert forall g :: g in listing[1..] ==> g in listing;
  }

  /** For a listing of the directory's own files in which no entry is the
      screenshot of another, the recapture raises exactly when the capture
      of a listed entry raises. */
  lemma {:induction false} RecaptureRaises(files: set<string>, listing: seq<string>, site: string, grab: Grab)
    requires forall g :: g in listing ==> g in files
    requires NoShotListed(listing)
    ensures Recapture(files, listing, site, grab).raised <==> exists g :: g in listing && RaisingEntry(g, site, grab)
    decreases |listing|
  {
    if listing != [] {
      var f := listing[0];
      var rest := listing[1..];
      var o := if f == DsStore then Outcome(files, false) else Captured(files, f, grab(site, f));
      assert forall g :: g in listing <==> g == f || g in rest;
      assert f in listing && f in files;
      if o.raised {
        assert RaisingEntry(f, site, grab);
      } else {
        RestListed(files, listing, site, grab);
        RecaptureRaises(o.files, rest, site, grab);
      }
    }
  }

  /** For such a listing, a finished recapture leaves no screenshot for an
      entry whose grabs all fail, even one that was there before. */
  lemma {:induction false} FailedGrabLeavesNoShot(files: set<string>, listing: seq<string>, site: string,
                                                 grab: Grab, f: string)
    requires forall g :: g in listing ==> g in files
    requires NoShotListed(listing)
    requires f in listing && f != DsStore
    requires forall g :: g in listing && ScreenshotName(g) == ScreenshotName(f) ==> grab(site, g) == NotWritten
    ensures var o := Recapture(files, listing, site, grab);
      !o.raised ==> ScreenshotName(f) !in o.files
    decreases |listing|
  {
    var g := listing[0];
    var rest := listing[1..];
    var x := ScreenshotName(f);
    assert forall h :: h in listing <==> h == g || h in rest;
    if g == f {
      forall j | 0 <= j < |rest| && rest[j] != DsStore && ScreenshotName(rest[j]) == x
        ensures grab(site, rest[j]) != Written
      {
        assert rest[j] in rest;
      }
      UnwrittenShotAbsent(files - {x}, rest, site, grab, x);
    } else {
      var o := if g == DsStore then Outcome(files, false) else Captured(files, g, grab(site, g));
      if !o.raised {
        RestListed(files, listing, site, grab);
        FailedGrabLeavesNoShot(o.files, rest, site, grab, f);
      }
    }
  }

  // ---------------------------------------------------------------------
  // glue.csv as autocode.py writes it

  /** A line `write_glue_csv` writes for a non-negative base reads back,
      with the corrected row parser, as the base followed by the
      continuation scenes in increasing order. */
  lemma GlueRowRoundTrip(base: nat, cont: seq<int>)
    requires NonNegative(cont)
    ensures ParseRow(CsvRow(GlueLine(base, cont))) == Some([base] + SortedInts(cont))
  {
    var t := NatToString(base);
    SingleToken(base);
    assert Range(base, base) == [base];
    if cont == [] {
      assert GlueLine(base, cont) == t;
      SplitNoSep(t, ',');
      ExpandPartsSingle(t);
    } else {
      var c := Compress(cont);
      assert GlueLine(base, cont) == t + [','] + c;
      SplitAtSep(t, c, ',');
      var row := [t] + Split(c, ',');
      assert CsvRow(GlueLine(base, cont)) == row;
      assert row[0] == t && row[1..] == Split(c, ',');
      ExpandCompress(cont);
      assert ExpandParts(row[1..]) == Some(SortedInts(cont));
    }
  }

  /** For continuations written in increasing order, the row reads back as
      exactly the scenes `main` assigned to that base. */
  lemma GlueRowExact(base: nat, cont: seq<int>)
    requires NonNegative(cont) && Increasing(cont)
    ensures ParseRow(CsvRow(GlueLine(base, cont))) == Some([base] + cont)
  {
    GlueRowRoundTrip(base, cont);
    SortedIntsUnique(cont, cont);
  }

  /** glue.py line 76 parses every field with `int()`, so the range token
      that `compress_ints` writes for a run of two or more continuation
      scenes makes it raise. For instance base 7 with continuation 9, 10,
      11 is written as `7,9-11`; the line rejects it and the range-aware
      parser reads back 7, 9, 10, 11. */
  lemma AsWrittenRejectsRanges(base: nat, lo: nat, hi: nat)
    requires lo < hi
    ensures GlueLine(base, Range(lo, hi)) == NatToString(base) + "," + RunToken(Run(lo, hi))
    ensures RunToken(Run(lo, hi)) == NatToString(lo) + "-" + NatToString(hi)
    ensures ParseRowAsWritten(CsvRow(GlueLine(base, Range(lo, hi)))) == None
    ensures ParseRow(CsvRow(GlueLine(base, Range(lo, hi)))) == Some([base] + Range(lo, hi))
  {
    RangeLine(base, lo, hi);
    CompressRange(lo, hi);
    RangeRowRejected(base, lo, hi);
    RangeRowRead(base, lo, hi);
  }

  lemma RangeRowRejected(base: nat, lo: nat, hi: nat)
    requires lo < hi
    ensures ParseRowAsWritten(CsvRow(GlueLine(base, Range(lo, hi)))) == None
  {
    RangeRow(base, lo, hi);
    var tok := RunToken(Run(lo, hi));
    RangeTokenRejected(lo, hi);
    ExpandRunToken(Run(lo, hi));
    assert [NatToString(base), tok][1..] == [tok];
    assert ParseRowAsWritten([tok]) == None;
  }

  lemma RangeRowRead(base: nat, lo: nat, hi: nat)
    requires lo < hi
    ensures ParseRow(CsvRow(GlueLine(base, Range(lo, hi)))) == Some([base] + Range(lo, hi))
  {
    var cont := Range(lo, hi);
    assert NonNegative(cont) && Increasing(cont);
    GlueRowExact(base, cont);
  }

  lemma RangeLine(base: nat, lo: nat, hi: nat)
    requires lo < hi
    ensures GlueLine(base, Range(lo, hi)) == NatToString(base) + [','] + RunToken(Run(lo, hi))
  {
    var cont := Range(lo, hi);
    var tok := RunToken(Run(lo, hi));
    CompressRange(lo, hi);
    assert |cont| == hi - lo + 1;
    var b := NatToString(base);
    assert IntToString(base) == b;
    assert GlueLine(base, cont) == b + "," + tok;
  }

  lemma RangeRow(base: nat, lo: nat, hi: nat)
    requires lo < hi
    ensures CsvRow(GlueLine(base, Range(lo, hi))) == [NatToString(base), RunToken(Run(lo, hi))]
  {
    var tok := RunToken(Run(lo, hi));
    RangeLine(base, lo, hi);
    ExpandRunToken(Run(lo, hi));
    SplitAtSep(NatToString(base), tok, ',');
    SplitNoSep(tok, ',');
  }

  /** The token `compress_ints` writes for one run of consecutive scenes. */
  lemma CompressRange(lo: nat, hi: nat)
    requires lo < hi
    ensures Compress(Range(lo, hi)) == RunToken(Run(lo, hi))
    ensures RunToken(Run(lo, hi)) == NatToString(lo) + "-" + NatToString(hi)
  {
    var r := Range(lo, hi);
    SortedIntsUnique(r, r);
    RunsFromRange(lo, lo, hi);
    assert r[1..] == Range(lo + 1, hi);
    assert Runs(r) == [Run(lo, hi)];
    assert Tokens([Run(lo, hi)]) == [RunToken(Run(lo, hi))];
  }

  lemma {:induction false} RunsFromRange(start: int, prev: int, hi: int)
    requires start <= prev <= hi
    decreases hi - prev
    ensures RunsFrom(start, prev, Range(prev + 1, hi)) == [Run(start, hi)]
  {
    if prev < hi {
      var rest := Range(prev + 1, hi);
      assert rest[0] == prev + 1;
      assert rest[1..] == Range(prev + 2, hi);
      RunsFromRange(start, prev + 1, hi);
    } else {
      assert Range(prev + 1, hi) == [];
    }
  }

  /** `int()` rejects a token `lo-hi`: its digits are interrupted by the
      dash. */
  lemma RangeTokenRejected(lo: nat, hi: nat)
    requires lo < hi
    ensures ParseInt(RunToken(Run(lo, hi))) == None
  {
    var a := NatToString(lo);
    var t := RunToken(Run(lo, hi));
    assert t == a + ['-'] + NatToString(hi);
    ExpandRunToken(Run(lo, hi));
    assert t[0] == a[0] && t[|a|] == '-';
    DashNotInt(t, |a|);
  }

  /** A stripped text that starts with a digit and holds a dash is no
      integer. */
  lemma DashNotInt(t: string, k: nat)
    requires k < |t| && t[k] == '-' && IsDigit(t[0]) && Strip(t) == t
    ensures ParseInt(t) == None
  {
    assert !IsDigit(t[k]);
  }

  /** Every field of a row is, once stripped, a non-empty run of digits. */
  predicate DigitFields(row: seq<string>) {
    forall k :: 0 <= k < |row| ==> Strip(row[k]) != [] && AllDigits(Strip(row[k]))
  }

  /** On such rows the range-aware reading and glue.py's own `int()` per
      field agree, one scene per field. */
  lemma {:induction false} ExpandDigitFields(row: seq<string>)
    requires DigitFields(row)
    ensures ExpandParts(row) == ParseRowAsWritten(row)
    ensures ExpandParts(row).Some? && |ExpandParts(row).value| == |row|
    decreases |row|
  {
    if row != [] {
      var p := Strip(row[0]);
      assert Strip(row[0]) != [] && AllDigits(Strip(row[0]));
      assert forall k :: 0 <= k < |p| ==> p[k] != '-';
      DigitNotSpace(p[0]);
      DigitNotSpace(p[|p| - 1]);
      StripNoSpace(p);
      ParseSignedDigits(p);
      assert DigitFields(row[1..]) by {
        forall k | 0 <= k < |row[1..]|
          ensures Strip(row[1..][k]) != [] && AllDigits(Strip(row[1..][k]))
        {
          assert row[1..][k] == row[k + 1];
        }
      }
      ExpandDigitFields(row[1..]);
    }
  }

  /** The two readings differ only outside such rows: on range tokens
      (`AsWrittenRejectsRanges`), blank fields and signed fields. */
  lemma ParseRowAgrees(row: seq<string>)
    requires row != [] && DigitFields(row)
    ensures ParseRow(row) == ParseRowAsWritten(row)
  {
    ExpandDigitFields(row);
  }

  /** A blank field between two scenes makes glue.py's `int("")` raise,
      while the range-aware reading skips it, as `expand_range_str` does. */
  lemma BlankFieldDiffers(a: nat, b: nat)
    ensures ParseRowAsWritten([NatToString(a), "", NatToString(b)]) == None
    ensures ParseRow([NatToString(a), "", NatToString(b)]) == Some([a, b])
  {
    var row := [NatToString(a), "", NatToString(b)];
    assert row[1..] == ["", NatToString(b)] && row[1..][1..] == [NatToString(b)];
    BlankRaises(["", NatToString(b)]);
    SingleToken(a);
    SingleToken(b);
    assert Range(a, a) == [a] && Range(b, b) == [b];
    ExpandPartsSingle(NatToString(b));
    BlankSkipped(["", NatToString(b)]);
    assert ExpandParts(row) == Prepend([a], ExpandParts(row[1..]));
    assert [a] + [b] == [a, b];
  }

  lemma BlankRaises(row: seq<string>)
    requires row != [] && row[0] == ""
    ensures ParseRowAsWritten(row) == None
  {
    assert Strip("") == "";
  }

  lemma BlankSkipped(row: seq<string>)
    requires row != [] && row[0] == ""
    ensures ExpandParts(row) == ExpandParts(row[1..])
  {
    assert Strip("") == "";
  }

  /** A field `-n` is the integer `-n` to glue.py's `int()`, which reads
      `scene_-n`; the range-aware reading splits it at the dash into an
      empty bound and gives up. */
  lemma SignedFieldDiffers(d: string)
    requires d != [] && AllDigits(d)
    ensures ParseRowAsWritten([['-'] + d]) == Some([-(DigitsValue(d) as int)])
    ensures ParseRow([['-'] + d]) == None
  {
    var t := ['-'] + d;
    SignedDigits(d);
    assert ParseInt(Strip(t)) == Some(-(DigitsValue(d) as int));
    assert [t][1..] == [] && [t][0] == t;
    assert ParseRowAsWritten([t][1..]) == Some([]);
    assert [-(DigitsValue(d) as int)] + [] == [-(DigitsValue(d) as int)];
    ExpandPartsSingle(t);
    SignedToken(d);
    assert ExpandParts([t]) == None;
  }

  lemma SignedDigits(d: string)
    requires d != [] && AllDigits(d)
    ensures var t := ['-'] + d;
      t != [] && Strip(t) == t && ParseInt(t) == Some(-(DigitsValue(d) as int))
  {
    var t := ['-'] + d;
    assert t[1..] == d && t[0] == '-';
    DigitNotSpace(d[|d| - 1]);
    assert t[|t| - 1] == d[|d| - 1];
    StripNoSpace(t);
    ParseSignedDigits(d);
  }

  lemma SignedToken(d: string)
    ensures ExpandToken(['-'] + d) == None
  {
    assert ['-'] + d == [] + ['-'] + d;
    SplitFirstAt([], d, '-');
    assert Strip([]) == [];
  }
}
