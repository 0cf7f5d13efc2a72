/**
 The scene-splitting step of `split.py` and `subsplit.py`: the boundary
 timestamps read from ffmpeg's `showinfo` log, the clips cut between them,
 the screenshot of each clip, and the per-site detection parameters of
 `subsplit.py`.

 Timestamps are the reals `float()` reads; ffmpeg itself is not modelled,
 only the commands' time bounds and output names.
 */
module SplitPlan {
  import opened Text
  import opened Paths

  // ---------------------------------------------------------------------
  // reading the showinfo log

  /** The position of the first occurrence of `w` in `s`. */
  function Find(s: string, w: string): (r: Option<nat>)
    ensures r.None? <==> !Contains(s, w)
    ensures r.Some? ==> r.value + |w| <= |s| && StartsWith(s[r.value..], w)
    ensures r.Some? ==> forall j :: 0 <= j < r.value ==> !StartsWith(s[j..], w)
    decreases |s|
  {
    if StartsWith(s, w) then Some(0)
    else if s == [] then None
    else
      var k := Find(s[1..], w);
      if k.None? then None
      else
        assert s[1..][k.value..] == s[k.value + 1..];
        assert s[0..] == s;
        assert forall j :: 1 <= j <= k.value ==> s[j..] == s[1..][j - 1..];
        Some(k.value + 1)
  }

  /** An occurrence with none before it is the one `Find` returns. */
  lemma FindAt(s: string, w: string, k: nat)
    requires k <= |s| && StartsWith(s[k..], w)
    requires forall j :: 0 <= j < k ==> !StartsWith(s[j..], w)
    ensures Find(s, w) == Some(k)
  {
    if !Contains(s, w) {
      NotContainsAt(s, w, k);
    }
  }

  /** The text before the first occurrence of a non-empty word holds no
      occurrence of it. */
  lemma BeforeFirst(s: string, w: string, k: nat)
    requires k <= |s| && forall j :: 0 <= j < k ==> !StartsWith(s[j..], w)
    ensures w != [] ==> !Contains(s[..k], w)
  {
    if w != [] {
      forall j | 0 <= j <= |s[..k]| ensures !StartsWith(s[..k][j..], w) {
        if j < k && |w| <= k - j {
          assert s[..k][j..][..|w|] == s[j..][..|w|];
        }
      }
      NoneAtNotContains(s[..k], w);
    }
  }

  /** `s.split(w)[0]`: the text before the first occurrence of `w`. */
  function BeforeWord(s: string, w: string): (r: string)
    ensures StartsWith(s, r)
    ensures !Contains(s, w) ==> r == s
    ensures w != [] ==> !Contains(r, w)
    ensures Contains(s, w) ==> StartsWith(s[|r|..], w)
  {
    var k := Find(s, w);
    if k.None? then s
    else
      BeforeFirst(s, w, k.value);
      s[..k.value]
  }

  const Marker: string := "pts_time:"

  /** `line.split('pts_time:')[1].split(' ')[0]` for a line holding the
      marker: the text after the first marker, up to the next marker or the
      first space. */
  function PtsField(line: string): (r: string)
    requires Contains(line, Marker)
    ensures ' ' !in r
  {
    var k := Find(line, Marker).value;
    var piece := BeforeWord(line[k + |Marker|..], Marker);
    Split(piece, ' ')[0]
  }

  /** The value of a line `p + "pts_time:" + t + q` whose first marker
      follows `p`, where `t` holds no space and no marker and `q` is empty
      or starts with a space, is exactly `t`. */
  lemma PtsFieldOf(p: string, t: string, q: string)
    requires forall j :: 0 <= j < |p| ==> !StartsWith((p + Marker + t + q)[j..], Marker)
    requires ' ' !in t && !Contains(t, Marker)
    requires q == [] || q[0] == ' '
    ensures Contains(p + Marker + t + q, Marker)
    ensures PtsField(p + Marker + t + q) == t
  {
    var line := p + Marker + t + q;
    assert line == p + Marker + (t + q);
    FirstMarkerAt(p, t + q);
    assert Find(line, Marker) == Some(|p|);
    assert line[|p| + |Marker|..] == t + q;
    FieldOf(t, q);
    assert PtsField(line) == Split(BeforeWord(t + q, Marker), ' ')[0];
  }

  lemma FirstMarkerAt(p: string, rest: string)
    requires forall j :: 0 <= j < |p| ==> !StartsWith((p + Marker + rest)[j..], Marker)
    ensures Find(p + Marker + rest, Marker) == Some(|p|)
    ensures (p + Marker + rest)[|p| + |Marker|..] == rest
  {
    var line := p + Marker + rest;
    assert line[|p|..][..|Marker|] == Marker;
    FindAt(line, Marker, |p|);
  }

  /** The first space-separated piece before the next marker of `t + q`. */
  lemma FieldOf(t: string, q: string)
    requires ' ' !in t && !Contains(t, Marker)
    requires q == [] || q[0] == ' '
    ensures Split(BeforeWord(t + q, Marker), ' ')[0] == t
  {
    var m := PieceAfterMarker(t, q);
    if m == 0 {
      assert t + q[..0] == t;
      SplitNoSep(t, ' ');
    } else {
      assert t + q[..m] == t + [' '] + q[1..m];
      SplitAtSep(t, q[1..m], ' ');
    }
  }

  /** Cutting `t + q` at the marker keeps all of `t`: the cut falls at the
      end of `t` or inside `q`. */
  lemma PieceAfterMarker(t: string, q: string) returns (m: nat)
    requires ' ' !in t && !Contains(t, Marker)
    requires q == [] || q[0] == ' '
    ensures m <= |q| && BeforeWord(t + q, Marker) == t + q[..m]
  {
    var s := t + q;
    forall j | 0 <= j < |t| ensures !StartsWith(s[j..], Marker) {
      NoMarkerAt(t, q, j);
    }
    var k := Find(s, Marker);
    if k.None? {
      m := |q|;
      assert q[..m] == q;
    } else {
      assert k.value >= |t|;
      m := k.value - |t|;
      assert s[..k.value] == t + q[..m];
    }
  }

  lemma NoMarkerAt(t: string, q: string, j: nat)
    requires ' ' !in t && !Contains(t, Marker)
    requires q == [] || q[0] == ' '
    requires j < |t|
    ensures !StartsWith((t + q)[j..], Marker)
  {
    var s := t + q;
    if j + |Marker| <= |t| {
      NotContainsAt(t, Marker, j);
      assert s[j..][..|Marker|] == t[j..][..|Marker|];
    } else if |Marker| <= |s| - j {
      assert s[j..][|t| - j] == q[0] == ' ';
      assert Marker[|t| - j] != ' ';
    }
  }

  function PrependTimes(out: seq<real>, rest: Option<seq<real>>): Option<seq<real>> {
    if rest.None? then None else Some(out + rest.value)
  }

  /** The boundary timestamps of a log: the `pts_time:` value of every line
      holding the marker, in line order; `None` where `float()` raises on
      one of them. */
  function Timestamps(lines: seq<string>): Option<seq<real>> {
    if lines == [] then Some([])
    else if !Contains(lines[0], Marker) then Timestamps(lines[1..])
    else
      var t := ParseDecimal(PtsField(lines[0]));
      if t.None? then None else PrependTimes([t.value], Timestamps(lines[1..]))
  }

  /** The lines holding the marker, in order. */
  function Marked(lines: seq<string>): (r: seq<string>)
    ensures forall k :: 0 <= k < |r| ==> Contains(r[k], Marker)
  {
    if lines == [] then []
    else if Contains(lines[0], Marker) then [lines[0]] + Marked(lines[1..])
    else Marked(lines[1..])
  }

  /** Lines 71-76 of split.py and 127-131 of subsplit.py. */
  method ParseTimestamps(lines: seq<string>) returns (r: Option<seq<real>>)
    ensures r == Timestamps(lines)
  {
    var out: seq<real> := [];
    var i := 0;
    assert lines[0..] == lines;
    PrependTimesNil(Timestamps(lines));
    while i < |lines|
      invariant 0 <= i <= |lines|
      invariant Timestamps(lines) == PrependTimes(out, Timestamps(lines[i..]))
    {
      TimestampsStep(lines, i, out);
      if Contains(lines[i], Marker) {
        var t := ParseDecimal(PtsField(lines[i]));
        if t.None? {
          return None;
        }
        out := out + [t.value];
      }
      i := i + 1;
    }
    assert lines[i..] == [];
    assert out + [] == out;
    r := Some(out);
  }

  lemma PrependTimesNil(rest: Option<seq<real>>)
    ensures PrependTimes([], rest) == rest
  {
    if rest.Some? {
      assert [] + rest.value == rest.value;
    }
  }

  lemma TimestampsStep(lines: seq<string>, i: nat, out: seq<real>)
    requires i < |lines|
    ensures !Contains(lines[i], Marker) ==>
      PrependTimes(out, Timestamps(lines[i..])) == PrependTimes(out, Timestamps(lines[i + 1..]))
    ensures Contains(lines[i], Marker) && ParseDecimal(PtsField(lines[i])).None? ==>
      PrependTimes(out, Timestamps(lines[i..])) == None
    ensures (Contains(lines[i], Marker) && ParseDecimal(PtsField(lines[i])).Some? ==>
      PrependTimes(out, Timestamps(lines[i..])) ==
        PrependTimes(out + [ParseDecimal(PtsField(lines[i])).value], Timestamps(lines[i + 1..])))
  {
    assert lines[i..][1..] == lines[i + 1..];
    if Contains(lines[i], Marker) {
      var t := ParseDecimal(PtsField(lines[i]));
      if t.Some? {
        var rest := Timestamps(lines[i + 1..]);
        if rest.Some? {
          assert out + ([t.value] + rest.value) == (out + [t.value]) + rest.value;
        }
      }
    }
  }

  /** The k-th timestamp is the value of the k-th line, for every k. */
  predicate ReadFrom(ts: seq<real>, ms: seq<string>) {
    |ts| == |ms| && forall k :: 0 <= k < |ts| ==> Contains(ms[k], Marker) && ParseDecimal(PtsField(ms[k])) == Some(ts[k])
  }

  lemma ReadFromCons(t: real, ts: seq<real>, l: string, ms: seq<string>)
    requires Contains(l, Marker) && ParseDecimal(PtsField(l)) == Some(t) && ReadFrom(ts, ms)
    ensures ReadFrom([t] + ts, [l] + ms)
  {
    var ts', ms' := [t] + ts, [l] + ms;
    forall k | 0 <= k < |ts'|
      ensures Contains(ms'[k], Marker) && ParseDecimal(PtsField(ms'[k])) == Some(ts'[k])
    {
      if k > 0 {
        ConsAt(l, ms, k);
        ConsAt(t, ts, k);
      }
    }
  }

  /** When the log parses, there is one timestamp per marked line, and the
      k-th timestamp is the value of the k-th marked line. */
  lemma {:induction false} TimestampsOfMarkedLines(lines: seq<string>)
    requires Timestamps(lines).Some?
    ensures ReadFrom(Timestamps(lines).value, Marked(lines))
  {
    if lines != [] {
      TimestampsOfMarkedLines(lines[1..]);
      if Contains(lines[0], Marker) {
        var tail := Timestamps(lines[1..]).value;
        var t := ParseDecimal(PtsField(lines[0]));
        assert Timestamps(lines).value == [t.value] + tail;
        ReadFromCons(t.value, tail, lines[0], Marked(lines[1..]));
      }
    }
  }

  /** A line without the marker contributes nothing; a log without any
      marker gives no timestamps. */
  lemma {:induction false} NoMarkerNoTimestamps(lines: seq<string>)
    requires forall k :: 0 <= k < |lines| ==> !Contains(lines[k], Marker)
    ensures Timestamps(lines) == Some([])
  {
    if lines != [] {
      NoMarkerNoTimestamps(lines[1..]);
    }
  }

  // ---------------------------------------------------------------------
  // the clips

  /** The end of a cut: a timestamp (`-to t`), the end of the input (no
      `-to`), or the duration ffprobe reports. */
  datatype Stop = At(t: real) | ToEnd | Duration

  /** One ffmpeg cut of the source video, re-encoded with libx264/aac or
      stream-copied; or a plain copy of the whole file. */
  datatype Clip = Segment(output: string, start: real, stop: Stop, reencode: bool) | Copy(output: string)

  /** Where clip `i` (0-based) starts: the previous boundary, 0 for the
      first. */
  function Prev(ts: seq<real>, i: nat): real
    requires i <= |ts|
  {
    if i == 0 then 0.0 else ts[i - 1]
  }

  /** `scene_<n>.mp4`. */
  function SceneName(n: nat): string {
    "scene_" + NatToString(n) + ".mp4"
  }

  /** split.py's clips for boundaries `ts`: `scene_<i+1>` between the
      boundaries, re-encoded, then a stream copy from the last boundary to
      the end of the video. */
  function SplitClips(dir: string, ts: seq<real>): (r: seq<Clip>)
    ensures |r| == |ts| + 1
  {
    seq(|ts| + 1, i requires 0 <= i <= |ts| =>
      if i < |ts| then Segment(PathJoin(dir, SceneName(i + 1)), Prev(ts, i), At(ts[i]), true)
      else Segment(PathJoin(dir, SceneName(i + 1)), Prev(ts, i), ToEnd, false))
  }

  /** Lines 78-94 of split.py, with the loop carrying the previous
      timestamp. */
  method PlanSplit(dir: string, ts: seq<real>) returns (clips: seq<Clip>)
    ensures clips == SplitClips(dir, ts)
  {
    var previous := 0.0;
    clips := [];
    var i := 0;
    while i < |ts|
      invariant 0 <= i <= |ts|
      invariant previous == Prev(ts, i)
      invariant |clips| == i
      invariant forall k :: 0 <= k < i ==> clips[k] == SplitClips(dir, ts)[k]
    {
      clips := clips + [Segment(PathJoin(dir, SceneName(i + 1)), previous, At(ts[i]), true)];
      previous := ts[i];
      i := i + 1;
    }
    clips := clips + [Segment(PathJoin(dir, SceneName(|ts| + 1)), previous, ToEnd, false)];
  }

  /** `{subsplit}_{n}.mp4`. */
  function SubName(subsplit: string, n: nat): string {
    subsplit + "_" + NatToString(n) + ".mp4"
  }

  /** The result files of subsplit.py: `{subsplit}_1.mp4` alone for no
      boundary, else one per clip. */
  function SubResults(subsplit: string, ts: seq<real>): (r: seq<string>)
    ensures |r| == |ts| + 1
  {
    seq(|ts| + 1, i requires 0 <= i <= |ts| => SubName(subsplit, i + 1))
  }

  /** Cut `i` (0-based) of subsplit.py for at least one boundary:
      re-encoded between the boundaries, the last one from the final
      boundary to the probed duration. */
  function SubCut(dir: string, subsplit: string, ts: seq<real>, i: nat): Clip
    requires ts != [] && i <= |ts|
  {
    if i < |ts| then Segment(PathJoin(dir, SubName(subsplit, i + 1)), Prev(ts, i), At(ts[i]), true)
    else Segment(PathJoin(dir, SubName(subsplit, i + 1)), ts[|ts| - 1], Duration, true)
  }

  /** subsplit.py's clips: a copy of the source when there is no boundary,
      else the cuts. */
  function SubsplitClips(dir: string, subsplit: string, ts: seq<real>): (r: seq<Clip>)
    ensures |r| == |ts| + 1
  {
    if ts == [] then [Copy(PathJoin(dir, SubName(subsplit, 1)))]
    else seq(|ts| + 1, i requires 0 <= i <= |ts| => SubCut(dir, subsplit, ts, i))
  }

  /** The screenshot `capture_middle_frame` writes for a clip path:
      `<stem>_screenshot.jpg` beside it. */
  function CapturePath(clip: string): string {
    PathJoin(Dirname(clip), ScreenshotName(Basename(clip)))
  }

  /** Lines 133-169 of subsplit.py: the commands, the result files and the
      screenshots taken of them. */
  method PlanSubsplit(dir: string, subsplit: string, ts: seq<real>)
    returns (clips: seq<Clip>, results: seq<string>, shots: seq<string>)
    ensures clips == SubsplitClips(dir, subsplit, ts)
    ensures results == SubResults(subsplit, ts)
    ensures shots == Captures(dir, results)
  {
    if |ts| == 0 {
      clips := [Copy(PathJoin(dir, SubName(subsplit, 1)))];
      results := [SubName(subsplit, 1)];
    } else {
      clips, results := SubsplitCuts(dir, subsplit, ts);
    }
    shots := CaptureAll(dir, results);
  }

  /** Lines 143-165 of subsplit.py. */
  method SubsplitCuts(dir: string, subsplit: string, ts: seq<real>) returns (clips: seq<Clip>, results: seq<string>)
    requires ts != []
    ensures clips == SubsplitClips(dir, subsplit, ts)
    ensures results == SubResults(subsplit, ts)
  {
    clips := [];
    results := [];
    var previous := 0.0;
    var i := 0;
    while i < |ts|
      invariant 0 <= i <= |ts|
      invariant previous == Prev(ts, i)
      invariant CutsUpTo(dir, subsplit, ts, clips, results, i)
    {
      var cut := Segment(PathJoin(dir, SubName(subsplit, i + 1)), previous, At(ts[i]), true);
      assert cut == SubCut(dir, subsplit, ts, i);
      CutsSnoc(dir, subsplit, ts, clips, results, i);
      clips := clips + [cut];
      results := results + [SubName(subsplit, i + 1)];
      previous := ts[i];
      i := i + 1;
    }
    var last := Segment(PathJoin(dir, SubName(subsplit, |ts| + 1)), ts[|ts| - 1], Duration, true);
    assert last == SubCut(dir, subsplit, ts, |ts|);
    CutsSnoc(dir, subsplit, ts, clips, results, |ts|);
    clips := clips + [last];
    results := results + [SubName(subsplit, |ts| + 1)];
    CutsDone(dir, subsplit, ts, clips, results);
  }

  /** The first `i` cuts and result names of subsplit.py are planned. */
  predicate CutsUpTo(dir: string, subsplit: string, ts: seq<real>, clips: seq<Clip>, results: seq<string>, i: nat)
    requires ts != [] && i <= |ts| + 1
  {
    && |clips| == i && |results| == i
    && (forall k :: 0 <= k < i ==> clips[k] == SubCut(dir, subsplit, ts, k))
    && (forall k :: 0 <= k < i ==> results[k] == SubName(subsplit, k + 1))
  }

  lemma CutsSnoc(dir: string, subsplit: string, ts: seq<real>, clips: seq<Clip>, results: seq<string>, i: nat)
    requires ts != [] && i <= |ts|
    requires CutsUpTo(dir, subsplit, ts, clips, results, i)
    ensures CutsUpTo(dir, subsplit, ts, clips + [SubCut(dir, subsplit, ts, i)], results + [SubName(subsplit, i + 1)], i + 1)
  {
    var c := clips + [SubCut(dir, subsplit, ts, i)];
    var r := results + [SubName(subsplit, i + 1)];
    forall k | 0 <= k < i
      ensures c[k] == SubCut(dir, subsplit, ts, k) && r[k] == SubName(subsplit, k + 1)
    {
      assert c[k] == clips[k] && r[k] == results[k];
    }
  }

  lemma CutsDone(dir: string, subsplit: string, ts: seq<real>, clips: seq<Clip>, results: seq<string>)
    requires ts != []
    requires CutsUpTo(dir, subsplit, ts, clips, results, |ts| + 1)
    ensures clips == SubsplitClips(dir, subsplit, ts)
    ensures results == SubResults(subsplit, ts)
  {
  }

  /** The screenshots of a list of result files, in order. */
  function Captures(dir: string, results: seq<string>): (r: seq<string>)
    ensures |r| == |results|
  {
    if results == [] then []
    else Captures(dir, results[..|results| - 1]) + [CapturePath(PathJoin(dir, results[|results| - 1]))]
  }

  /** Lines 167-169 of subsplit.py: one screenshot per result file. */
  method CaptureAll(dir: string, results: seq<string>) returns (shots: seq<string>)
    ensures shots == Captures(dir, results)
  {
    shots := [];
    var j := 0;
    while j < |results|
      invariant 0 <= j <= |results|
      invariant shots == Captures(dir, results[..j])
    {
      assert results[..j + 1][..j] == results[..j];
      shots := shots + [CapturePath(PathJoin(dir, results[j]))];
      j := j + 1;
    }
    assert results[..j] == results;
  }

  lemma {:induction false} CapturesAt(dir: string, results: seq<string>, k: nat)
    requires k < |results|
    ensures Captures(dir, results)[k] == CapturePath(PathJoin(dir, results[k]))
  {
    if k < |results| - 1 {
      CapturesAt(dir, results[..|results| - 1], k);
    }
  }

  // ---------------------------------------------------------------------
  // properties of the clip plans

  /** A directory joined with two plain names gives the same path only for
      the same name. */
  lemma JoinInjective(dir: string, x: string, y: string)
    requires x != [] && y != [] && x[0] != '/' && y[0] != '/'
    requires PathJoin(dir, x) == PathJoin(dir, y)
    ensures x == y
  {
    var p := PathJoin(dir, x);
    var pre := if dir == [] || EndsWith(dir, "/") then dir else dir + "/";
    assert !StartsWith(x, "/") && !StartsWith(y, "/");
    assert PathJoin(dir, x) == pre + x;
    assert PathJoin(dir, y) == pre + y;
    assert x == p[|pre|..];
    assert y == p[|pre|..];
  }

  lemma SceneNameInjective(m: nat, n: nat)
    requires SceneName(m) == SceneName(n)
    ensures m == n
  {
    var a := SceneName(m);
    assert a[6..|a| - 4] == NatToString(m);
    assert SceneName(n)[6..|a| - 4] == NatToString(n);
    NatToStringInjective(m, n);
  }

  function ClipStart(c: Clip): real {
    if c.Segment? then c.start else 0.0
  }

  /** split.py's clips run back to back from 0: each clip ends where the
      next starts, the last runs to the end of the video, and no two write
      the same file. */
  lemma SplitContiguous(dir: string, ts: seq<real>)
    ensures var clips := SplitClips(dir, ts);
      && clips[0].Segment? && clips[0].start == 0.0
      && (forall i :: 0 <= i < |ts| ==> clips[i].stop == At(clips[i + 1].start) && clips[i].reencode)
      && clips[|ts|].stop == ToEnd && !clips[|ts|].reencode
      && clips[|ts|].start == (if ts == [] then 0.0 else ts[|ts| - 1])
  {
  }

  lemma SplitOutputsDistinct(dir: string, ts: seq<real>, i: nat, j: nat)
    requires i < j <= |ts|
    ensures SplitClips(dir, ts)[i].output != SplitClips(dir, ts)[j].output
  {
    var clips := SplitClips(dir, ts);
    if clips[i].output == clips[j].output {
      JoinInjective(dir, SceneName(i + 1), SceneName(j + 1));
      SceneNameInjective(i + 1, j + 1);
    }
  }

  /** subsplit.py: with no boundary, one copy of the whole source; with
      boundaries, cuts back to back from 0 to the probed duration, every one
      re-encoded, and each clip's output is the matching result file. */
  lemma SubsplitContiguous(dir: string, subsplit: string, ts: seq<real>)
    ensures var clips := SubsplitClips(dir, subsplit, ts);
      var results := SubResults(subsplit, ts);
      && (ts == [] ==> clips == [Copy(PathJoin(dir, subsplit + "_1.mp4"))] && results == [subsplit + "_1.mp4"])
      && (ts != [] ==>
        && clips[0].Segment? && clips[0].start == 0.0
        && (forall i :: 0 <= i < |ts| ==> clips[i].Segment? && clips[i].stop == At(clips[i + 1].start))
        && clips[|ts|].Segment? && clips[|ts|].stop == Duration
        && (forall i :: 0 <= i <= |ts| ==> clips[i].reencode))
      && (forall i :: 0 <= i <= |ts| ==> clips[i].output == PathJoin(dir, results[i]))
  {
    if ts == [] {
      assert NatToString(1) == "1";
      assert SubName(subsplit, 1) == subsplit + "_1.mp4";
    } else {
      var clips := SubsplitClips(dir, subsplit, ts);
      forall i | 0 <= i < |ts|
        ensures clips[i].Segment? && clips[i].stop == At(clips[i + 1].start)
      {
        assert clips[i] == SubCut(dir, subsplit, ts, i);
        assert clips[i + 1] == SubCut(dir, subsplit, ts, i + 1);
      }
    }
  }

  /** The screenshot of a clip written into a directory is its
      `<stem>_screenshot.jpg` in that same directory. */
  lemma CaptureBeside(dir: string, name: string)
    requires '/' !in name && dir != [] && dir[|dir| - 1] != '/'
    ensures CapturePath(PathJoin(dir, name)) == PathJoin(dir, ScreenshotName(name))
  {
    JoinBasename(dir, name);
    JoinDirname(dir, name);
  }

  /** For a subsplit name without dots, the screenshot of clip `k` is
      `{subsplit}_{k}_screenshot.jpg`. */
  lemma SubShotName(subsplit: string, k: nat)
    requires subsplit != [] && '.' !in subsplit
    ensures ScreenshotName(SubName(subsplit, k)) == subsplit + "_" + NatToString(k) + "_screenshot.jpg"
  {
    var stem := subsplit + "_" + NatToString(k);
    assert '.' !in NatToString(k) by {
      assert forall c :: c in NatToString(k) ==> IsDigit(c);
    }
    assert SubName(subsplit, k) == stem + "." + "mp4";
    StemOf(stem, "mp4");
  }

  // ---------------------------------------------------------------------
  // subsplit.py: the per-site detection parameters

  /** A row of `lookup.csv`. */
  datatype LookupRow = LookupRow(site: string, crawl: string, diff: string)

  /** `find_row`: the first row for the site. */
  function FindRow(rows: seq<LookupRow>, site: string): (r: Option<LookupRow>)
    ensures r.None? <==> forall k :: 0 <= k < |rows| ==> rows[k].site != site
    ensures r.Some? ==> r.value.site == site
    ensures r.Some? ==> exists k :: 0 <= k < |rows| && rows[k] == r.value && (forall j :: 0 <= j < k ==> rows[j].site != site)
  {
    if rows == [] then None
    else if rows[0].site == site then Some(rows[0])
    else
      var r := FindRow(rows[1..], site);
      assert forall j :: 1 <= j < |rows| ==> rows[j] == rows[1..][j - 1];
      r
  }

  /** The parameters after `scene_split_process`, and whether `float()`
      raised on the row's `diff`. */
  datatype Settings = Settings(crawl: string, diff: real, raised: bool)

  const DefaultCrawl: string := "10"
  const DefaultDiff: real := 0.30

  /** Lines 35-47 of subsplit.py: an unknown site gets the defaults; a
      known one its own crawl and a quarter of its diff. When the diff does
      not parse, crawl is already set and diff keeps its old value. */
  function SettingsFor(rows: seq<LookupRow>, site: string, crawl: string, diff: real): (s: Settings)
    ensures (forall k :: 0 <= k < |rows| ==> rows[k].site != site) ==> s == Settings(DefaultCrawl, DefaultDiff, false)
    ensures s.raised ==> s.diff == diff && exists k :: 0 <= k < |rows| && rows[k].site == site && rows[k].crawl == s.crawl
  {
    var row := FindRow(rows, site);
    if row.None? then Settings(DefaultCrawl, DefaultDiff, false)
    else
      var d := ParseDecimal(row.value.diff);
      if d.None? then Settings(row.value.crawl, diff, true)
      else Settings(row.value.crawl, d.value / 4.0, false)
  }

  /** The two globals of subsplit.py. */
  class DetectionSettings {
    var crawl: string
    var diff: real

    constructor()
      ensures crawl == DefaultCrawl && diff == DefaultDiff
    {
      crawl := DefaultCrawl;
      diff := DefaultDiff;
    }

    method SceneSplitProcess(rows: seq<LookupRow>, site: string) returns (raised: bool)
      modifies this
      ensures Settings(crawl, diff, raised) == SettingsFor(rows, site, old(crawl), old(diff))
    {
      var row := FindRow(rows, site);
      if row.None? {
        crawl := DefaultCrawl;
        diff := DefaultDiff;
        return false;
      }
      crawl := row.value.crawl;
      var d := ParseDecimal(row.value.diff);
      if d.None? {
        return true;
      }
      diff := d.value / 4.0;
      raised := false;
    }
  }

  /** The parameters depend only on the lookup table and the site: running
      the step again changes nothing. */
  lemma SettingsIdempotent(rows: seq<LookupRow>, site: string, crawl: string, diff: real)
    requires !SettingsFor(rows, site, crawl, diff).raised
    ensures var s := SettingsFor(rows, site, crawl, diff);
      SettingsFor(rows, site, s.crawl, s.diff) == s
  {
  }

  /** A site listed in the table with diff `d` gets diff `d / 4`; one not
      listed gets crawl 10 and diff 0.30. */
  lemma SettingsOfRow(rows: seq<LookupRow>, site: string, crawl: string, diff: real, k: nat)
    requires k < |rows| && rows[k].site == site && forall j :: 0 <= j < k ==> rows[j].site != site
    requires ParseDecimal(rows[k].diff).Some?
    ensures SettingsFor(rows, site, crawl, diff) == Settings(rows[k].crawl, ParseDecimal(rows[k].diff).value / 4.0, false)
  {
    var r := FindRow(rows, site);
    var i :| 0 <= i < |rows| && rows[i] == r.value && (forall j :: 0 <= j < i ==> rows[j].site != site);
    assert i == k;
  }

  // ---------------------------------------------------------------------
  // subsplit.py: sanitize_filename

  /** `filename.split('?')[0]`: the name without a query string. */
  function SanitizeFilename(s: string): (r: string)
    ensures '?' !in r && StartsWith(s, r)
    ensures |r| < |s| ==> s[|r|] == '?'
    ensures '?' !in s ==> r == s
  {
    if '?' in s then SplitFirst(s, '?').0 else s
  }

  /** ... which is the first piece of `split('?')`. */
  lemma SanitizeIsFirstPiece(s: string)
    ensures SanitizeFilename(s) == Split(s, '?')[0]
  {
    if '?' in s {
      var (p, q) := SplitFirst(s, '?');
      SplitAtSep(p, q, '?');
    } else {
      SplitNoSep(s, '?');
    }
  }

  lemma SanitizeIdempotent(s: string)
    ensures SanitizeFilename(SanitizeFilename(s)) == SanitizeFilename(s)
  {
  }

  // ---------------------------------------------------------------------
  // split.py: process_folder

  /** One entry of the institution folder: its name, whether it is a
      regular file, and the type `mimetypes.guess_type` guesses for it. */
  datatype Entry = Entry(name: string, isFile: bool, mime: Option<string>)

  /** `capture_middle_frame` (split.py lines 33-54) on the scenes
      directory's file `f`, with the outcome `c`: a written grab adds
      `<stem>_screenshot.jpg`, a failed one leaves the directory as it was,
      and a raise ends the script. */
  function Captured(files: set<string>, f: string, c: Capture): (o: Outcome)
    ensures o.raised <==> c == Unreadable
    ensures c == Written ==> ScreenshotName(f) in o.files
    ensures forall x :: x != ScreenshotName(f) ==> (x in o.files <==> x in files)
    ensures files <= o.files
  {
    match c
    case Written => Outcome(files + {ScreenshotName(f)}, false)
    case NotWritten => Outcome(files, false)
    case Unreadable => Outcome(files, true)
  }

  /** One step of the pruning loop (split.py lines 117-131): `.DS_Store` is
      skipped; `os.path.getsize` raises for a name that is no longer in the
      directory; a clip under 1024 bytes is removed; any other file gets
      its screenshot, with the capture outcome `c`. `n` is the file's size
      on disk. Every entry of the model is a regular file, so the
      `isfile` test of line 127 always holds. */
  function PruneStep(files: set<string>, f: string, n: nat, c: Capture): Outcome {
    if f == DsStore then Outcome(files, false)
    else if f !in files then Outcome(files, true)
    else if n < 1024 then Outcome(files - {f}, false)
    else Captured(files, f, c)
  }

  /** `os.path.getsize(path)` for the clip named by the second argument as
      it is on disk while the first, the video, is being split: every video
      re-creates the same clip names with its own sizes. */
  type Sizes = (string, string) -> nat

  /** The pruning loop over the listing of the scenes directory holding the
      clips of `video`, up to the first call that raises. */
  function Pruned(files: set<string>, listing: seq<string>, size: Sizes, video: string, grab: Grab): (o: Outcome)
    ensures forall x :: x in files && x !in o.files ==> x in listing
    decreases |listing|
  {
    if listing == [] then Outcome(files, false)
    else
      var o := PruneStep(files, listing[0], size(video, listing[0]), grab(video, listing[0]));
      if o.raised then o else Pruned(o.files, listing[1..], size, video, grab)
  }

  /** The clip files split.py writes for `n` scenes. */
  function SceneNames(n: nat): (r: seq<string>)
    ensures |r| == n
  {
    seq(n, i requires 0 <= i < n => SceneName(i + 1))
  }

  /** The scenes directory after one regular file: wiped and re-created;
      left empty when the type is unknown (lines 107-109) or not video;
      otherwise holding the clips of `detect(name)`'s boundaries, pruned. */
  function EntryResult(e: Entry, detect: string -> seq<real>, size: Sizes, grab: Grab, listdir: Listdir)
    : Outcome
  {
    if e.mime.None? || !StartsWith(e.mime.value, "video") then Outcome({}, false)
    else
      var clips := SetOf(SceneNames(|detect(e.name)| + 1));
      Pruned(clips, listdir(clips), size, e.name, grab)
  }

  /** The loop of `process_folder` over the folder's entries, up to the
      first call that raises. */
  function Folder(scenes: set<string>, entries: seq<Entry>, detect: string -> seq<real>, size: Sizes,
                  grab: Grab, listdir: Listdir): (o: Outcome)
    ensures o.raised ==> exists e :: e in entries && e.isFile && e.mime.Some?
    decreases |entries|
  {
    if entries == [] then Outcome(scenes, false)
    else if !entries[0].isFile then Folder(scenes, entries[1..], detect, size, grab, listdir)
    else
      var o := EntryResult(entries[0], detect, size, grab, listdir);
      if o.raised then o else Folder(o.files, entries[1..], detect, size, grab, listdir)
  }

  /** The scenes directory of one institution folder. */
  class SceneFolder {
    var scenes: set<string>

    constructor(scenes0: set<string>)
      ensures scenes == scenes0
    {
      scenes := scenes0;
    }

    /** Lines 33-54 of split.py on the clip `f`. */
    method CaptureMiddleFrame(f: string, c: Capture) returns (raised: bool)
      modifies this
      ensures Outcome(scenes, raised) == Captured(old(scenes), f, c)
    {
      if c == Unreadable {
        return true;
      }
      if c == Written {
        scenes := scenes + {ScreenshotName(f)};
      }
      raised := false;
    }

    /** Lines 117-131 of split.py. */
    method Prune(listing: seq<string>, size: Sizes, video: string, grab: Grab) returns (raised: bool)
      modifies this
      ensures Outcome(scenes, raised) == Pruned(old(scenes), listing, size, video, grab)
    {
      ghost var goal := Pruned(scenes, listing, size, video, grab);
      var i := 0;
      assert listing[0..] == listing;
      while i < |listing|
        invariant 0 <= i <= |listing|
        invariant goal == Pruned(scenes, listing[i..], size, video, grab)
      {
        SliceTail(listing, i);
        var f := listing[i];
        if f == DsStore {
          i := i + 1;
          continue;
        }
        if f !in scenes {
          return true;
        }
        if size(video, f) < 1024 {
          scenes := scenes - {f};
        } else {
          raised := CaptureMiddleFrame(f, grab(video, f));
          if raised {
            return;
          }
        }
        i := i + 1;
      }
      assert listing[i..] == [];
      raised := false;
    }

    /** Lines 96-131 of split.py: for every regular file of the folder the
        scenes directory is wiped, and a video is split and pruned. */
    method ProcessFolder(entries: seq<Entry>, detect: string -> seq<real>, size: Sizes, grab: Grab,
                         listdir: Listdir) returns (raised: bool)
      modifies this
      ensures Outcome(scenes, raised) == Folder(old(scenes), entries, detect, size, grab, listdir)
    {
      ghost var goal := Folder(scenes, entries, detect, size, grab, listdir);
      var i := 0;
      assert entries[0..] == entries;
      while i < |entries|
        invariant 0 <= i <= |entries|
        invariant goal == Folder(scenes, entries[i..], detect, size, grab, listdir)
      {
        SliceTail(entries, i);
        var e := entries[i];
        if !e.isFile {
          i := i + 1;
          continue;
        }
        scenes := {};
        if e.mime.Some? && StartsWith(e.mime.value, "video") {
          scenes := SetOf(SceneNames(|detect(e.name)| + 1));
          raised := Prune(listdir(scenes), size, e.name, grab);
          if raised {
            return;
          }
        }
        i := i + 1;
      }
      assert entries[i..] == [];
      raised := false;
    }
  }

  /** Every regular file wipes the scenes directory, so a run that does not
      raise ends with what the last regular file of the listing left. */
  lemma {:induction false} LastFileDecides(scenes: set<string>, entries: seq<Entry>, k: nat,
                                          detect: string -> seq<real>, size: Sizes, grab: Grab,
                                          listdir: Listdir)
    requires k < |entries| && entries[k].isFile
    requires forall j :: k < j < |entries| ==> !entries[j].isFile
    ensures var o := Folder(scenes, entries, detect, size, grab, listdir);
      !o.raised ==> o == EntryResult(entries[k], detect, size, grab, listdir)
    decreases |entries|
  {
    var o0 := EntryResult(entries[0], detect, size, grab, listdir);
    if k == 0 {
      if !o0.raised {
        NoFilesKeep(o0.files, entries[1..], detect, size, grab, listdir);
      }
    } else if !entries[0].isFile {
      LastFileDecides(scenes, entries[1..], k - 1, detect, size, grab, listdir);
    } else if !o0.raised {
      LastFileDecides(o0.files, entries[1..], k - 1, detect, size, grab, listdir);
    }
  }

  lemma {:induction false} NoFilesKeep(scenes: set<string>, entries: seq<Entry>, detect: string -> seq<real>,
                                      size: Sizes, grab: Grab, listdir: Listdir)
    requires forall j :: 0 <= j < |entries| ==> !entries[j].isFile
    ensures Folder(scenes, entries, detect, size, grab, listdir) == Outcome(scenes, false)
    decreases |entries|
  {
    if entries != [] {
      NoFilesKeep(scenes, entries[1..], detect, size, grab, listdir);
    }
  }

  /** A screenshot name never names a clip. */
  lemma ShotIsNoClip(g: string, f: string)
    requires EndsWith(f, ".mp4")
    ensures ScreenshotName(g) != f
  {
    var x := ScreenshotName(g);
    assert x[|x| - 1] == 'g';
    assert f[|f| - 1] == '4';
  }

  /** In a pruning run that does not raise, a clip survives exactly when it
      is at least 1024 bytes (or was never listed). */
  lemma {:induction false} PrunedClip(files: set<string>, listing: seq<string>, size: Sizes, video: string,
                                     grab: Grab, f: string)
    requires EndsWith(f, ".mp4")
    ensures var o := Pruned(files, listing, size, video, grab);
      !o.raised ==> (f in o.files <==> f in files && (f in listing ==> size(video, f) >= 1024))
    decreases |listing|
  {
    if listing != [] {
      var g := listing[0];
      var o1 := PruneStep(files, g, size(video, g), grab(video, g));
      ShotIsNoClip(g, f);
      assert f != DsStore by {
        assert DsStore[|DsStore| - 1] == 'e';
      }
      assert f in listing <==> f == g || f in listing[1..];
      if !o1.raised {
        PrunedClip(o1.files, listing[1..], size, video, grab, f);
      }
    }
  }

  /** In a pruning run that does not raise, a listed clip of at least 1024
      bytes whose grab is written ends with its screenshot. */
  lemma {:induction false} PrunedShot(files: set<string>, listing: seq<string>, size: Sizes, video: string,
                                     grab: Grab, f: string)
    requires forall j :: 0 <= j < |listing| ==> EndsWith(listing[j], ".mp4")
    requires f in listing && size(video, f) >= 1024 && grab(video, f) == Written
    ensures var o := Pruned(files, listing, size, video, grab);
      !o.raised ==> ScreenshotName(f) in o.files
    decreases |listing|
  {
    var g := listing[0];
    var o1 := PruneStep(files, g, size(video, g), grab(video, g));
    if g == f {
      assert f != DsStore by {
        assert EndsWith(listing[0], ".mp4");
        assert DsStore[|DsStore| - 1] == 'e';
      }
      if !o1.raised {
        KeepsShot(o1.files, listing[1..], size, video, grab, ScreenshotName(f));
      }
    } else {
      assert f in listing[1..];
      if !o1.raised {
        PrunedShot(o1.files, listing[1..], size, video, grab, f);
      }
    }
  }

  /** The pruning never deletes a screenshot. */
  lemma {:induction false} KeepsShot(files: set<string>, listing: seq<string>, size: Sizes, video: string,
                                    grab: Grab, x: string)
    requires forall j :: 0 <= j < |listing| ==> EndsWith(listing[j], ".mp4")
    requires x in files && EndsWith(x, "_screenshot.jpg")
    ensures x in Pruned(files, listing, size, video, grab).files
    decreases |listing|
  {
    if listing != [] {
      var g := listing[0];
      assert x != g by {
        assert EndsWith(g, ".mp4");
        assert x[|x| - 1] == 'g';
        assert g[|g| - 1] == '4';
      }
      var o1 := PruneStep(files, g, size(video, g), grab(video, g));
      if !o1.raised {
        KeepsShot(o1.files, listing[1..], size, video, grab, x);
      }
    }
  }

  /** Every file the pruning adds is the screenshot of a listed clip whose
      grab was written: a failed grab leaves no screenshot behind. */
  lemma {:induction false} NewShotWritten(files: set<string>, listing: seq<string>, size: Sizes,
                                         video: string, grab: Grab, x: string)
    requires x in Pruned(files, listing, size, video, grab).files && x !in files
    ensures exists j :: 0 <= j < |listing| && ScreenshotName(listing[j]) == x && grab(video, listing[j]) == Written
    decreases |listing|
  {
    var g := listing[0];
    var o1 := PruneStep(files, g, size(video, g), grab(video, g));
    if x in o1.files {
      assert ScreenshotName(listing[0]) == x && grab(video, listing[0]) == Written;
    } else {
      NewShotWritten(o1.files, listing[1..], size, video, grab, x);
      var j :| 0 <= j < |listing[1..]| && ScreenshotName(listing[1..][j]) == x && grab(video, listing[1..][j]) == Written;
      assert listing[j + 1] == listing[1..][j];
    }
  }

  /** For a listing of the directory's own files, each named once, the
      pruning raises exactly when the capture of a listed file of at least
      1024 bytes raises. */
  lemma {:induction false} PruneRaises(files: set<string>, listing: seq<string>, size: Sizes, video: string,
                                      grab: Grab)
    requires Distinct(listing) && forall j :: 0 <= j < |listing| ==> listing[j] in files
    ensures Pruned(files, listing, size, video, grab).raised <==>
      exists j :: 0 <= j < |listing| && RaisingClip(listing[j], size, video, grab)
    decreases |listing|
  {
    if listing != [] {
      var g := listing[0];
      var o1 := PruneStep(files, g, size(video, g), grab(video, g));
      if o1.raised {
        assert RaisingClip(listing[0], size, video, grab);
      } else {
        var rest := listing[1..];
        assert !RaisingClip(g, size, video, grab);
        forall j | 0 <= j < |rest|
          ensures rest[j] in o1.files
        {
          assert rest[j] == listing[j + 1] && listing[0] != listing[j + 1];
        }
        assert Distinct(rest) by {
          forall i, j | 0 <= i < j < |rest|
            ensures rest[i] != rest[j]
          {
            assert rest[i] == listing[i + 1] && rest[j] == listing[j + 1];
          }
        }
        PruneRaises(o1.files, rest, size, video, grab);
        if exists j :: 0 <= j < |listing| && RaisingClip(listing[j], size, video, grab) {
          var j :| 0 <= j < |listing| && RaisingClip(listing[j], size, video, grab);
          assert j != 0 && rest[j - 1] == listing[j];
        }
        if exists j :: 0 <= j < |rest| && RaisingClip(rest[j], size, video, grab) {
          var j :| 0 <= j < |rest| && RaisingClip(rest[j], size, video, grab);
          assert listing[j + 1] == rest[j];
        }
      }
    }
  }

  /** A listed file whose capture raises once the pruning reaches it. */
  predicate RaisingClip(f: string, size: Sizes, video: string, grab: Grab) {
    f != DsStore && size(video, f) >= 1024 && grab(video, f) == Unreadable
  }
}
