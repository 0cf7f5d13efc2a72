/**
 The POSIX `os.path` functions the scripts use on file names: `join` of two
 components, `basename`, `dirname` and the stem of `splitext`, and the
 screenshot name `capture_middle_frame` derives from a clip.
 */
module Paths {
  import opened Text

  /** The position of the last occurrence of `c` in `s`. */
  function LastIndexOf(s: string, c: char): (r: Option<nat>)
    ensures r.None? ==> c !in s
    ensures r.Some? ==> r.value < |s| && s[r.value] == c && c !in s[r.value + 1..]
  {
    if s == [] then None
    else if s[|s| - 1] == c then Some(|s| - 1)
    else
      var r := LastIndexOf(s[..|s| - 1], c);
      assert s == s[..|s| - 1] + [s[|s| - 1]];
      r
  }

  /** `os.path.join(a, b)`: an absolute `b` replaces `a`; otherwise a `/`
      is put between them unless `a` is empty or already ends with one. */
  function PathJoin(a: string, b: string): string {
    if StartsWith(b, "/") then b
    else if a == [] || EndsWith(a, "/") then a + b
    else a + "/" + b
  }

  /** A joined path ends with its last component and, unless that one is
      absolute, starts with the first. */
  lemma PathJoinParts(a: string, b: string)
    ensures EndsWith(PathJoin(a, b), b)
    ensures !StartsWith(b, "/") ==> StartsWith(PathJoin(a, b), a)
  {
    var r := PathJoin(a, b);
    if !StartsWith(b, "/") && a != [] && !EndsWith(a, "/") {
      assert r == a + ("/" + b);
      assert r[|r| - |b|..] == b;
      assert r[..|a|] == a;
    }
  }

  /** `os.path.basename(p)`: the text after the last `/`. */
  function Basename(p: string): (r: string)
    ensures '/' !in r && EndsWith(p, r)
    ensures '/' !in p ==> r == p
  {
    var k := LastIndexOf(p, '/');
    if k.None? then p else p[k.value + 1..]
  }

  /** `s.rstrip("/")`: a prefix of `s` not ending in `/`, followed in `s`
      by slashes only. */
  function RStripSlashes(s: string): (r: string)
    ensures |r| <= |s| && r == s[..|r|]
    ensures r != [] ==> r[|r| - 1] != '/'
    ensures AllChar(s[|r|..], '/')
  {
    if s != [] && s[|s| - 1] == '/' then
      var r := RStripSlashes(s[..|s| - 1]);
      assert forall i :: 0 <= i < |s| - 1 - |r| ==> s[|r|..][i] == s[..|s| - 1][|r|..][i];
      r
    else s
  }

  predicate AllChar(s: string, c: char) {
    forall i :: 0 <= i < |s| ==> s[i] == c
  }

  /** `os.path.dirname(p)`: the text up to the last `/`, without trailing
      slashes unless it is made of slashes only. */
  function Dirname(p: string): string {
    var k := LastIndexOf(p, '/');
    var head := if k.None? then "" else p[..k.value + 1];
    if head != [] && !AllChar(head, '/') then RStripSlashes(head) else head
  }

  /** `os.path.splitext(name)[0]` for a name without `/`: the text before
      the last dot, unless only dots precede it (a leading-dot name such as
      `.DS_Store` has no extension). */
  function Stem(name: string): (r: string)
    ensures StartsWith(name, r)
  {
    var d := LastIndexOf(name, '.');
    if d.None? || AllChar(name[..d.value], '.') then name else name[..d.value]
  }

  /** The screenshot `capture_middle_frame` writes for a clip file,
      `<stem>_screenshot.jpg` in the same directory. */
  function ScreenshotName(clip: string): (r: string)
    ensures EndsWith(r, "_screenshot.jpg")
  {
    Stem(clip) + "_screenshot.jpg"
  }

  /** The macOS folder metadata file the scripts skip. */
  const DsStore: string := ".DS_Store"

  /** What one `capture_middle_frame` call comes to. `get_video_duration`
      runs ffprobe first and reads its output with `float()`; when ffprobe
      cannot read the file that output is an error message, `float()`
      raises and the script ends (`Unreadable`). Otherwise ffmpeg grabs the
      middle frame, and either writes the screenshot (`Written`) or fails
      and writes nothing (`NotWritten`). */
  datatype Capture = Written | NotWritten | Unreadable

  /** The outcome of every `capture_middle_frame` call, by the owner of the
      directory (a site, or the video its clips were cut from) and the
      file's name. */
  type Grab = (string, string) -> Capture

  /** `os.listdir` of a directory holding the given names: the names in the
      order the file system returns them. */
  type Listdir = set<string> -> seq<string>

  /** Where a loop over a directory ends: the file names left, and whether
      a call raised (which ends the whole script). */
  datatype Outcome = Outcome(files: set<string>, raised: bool)

  // ---------------------------------------------------------------------
  // properties

  /** Joining a directory and a plain file name, the base name is the file
      name again. */
  lemma JoinBasename(dir: string, f: string)
    requires '/' !in f
    ensures Basename(PathJoin(dir, f)) == f
  {
    assert !StartsWith(f, "/") by {
      if |f| > 0 { assert f[0] in f; }
    }
    if dir == [] {
    } else if EndsWith(dir, "/") {
      BasenameAfterSlash(dir, f);
    } else {
      BasenameAfterSlash(dir + "/", f);
      assert dir + "/" + f == (dir + "/") + f;
    }
  }

  lemma BasenameAfterSlash(x: string, f: string)
    requires '/' !in f && x != [] && x[|x| - 1] == '/'
    ensures Basename(x + f) == f
  {
    var p := x + f;
    assert p[|x|..] == f;
    LastIndexAt(p, '/', |x| - 1);
  }

  /** ... and the directory is the directory again, for a directory with
      no trailing slash. */
  lemma JoinDirname(dir: string, f: string)
    requires '/' !in f && dir != [] && dir[|dir| - 1] != '/'
    ensures Dirname(PathJoin(dir, f)) == dir
  {
    var p := dir + "/" + f;
    assert !StartsWith(f, "/") by {
      if |f| > 0 { assert f[0] in f; }
    }
    assert !EndsWith(dir, "/");
    assert PathJoin(dir, f) == p;
    assert p[|dir| + 1..] == f;
    assert LastIndexOf(p, '/') == Some(|dir|) by {
      LastIndexAt(p, '/', |dir|);
    }
    var head := p[..|dir| + 1];
    assert head == dir + "/";
    assert head[|dir| - 1] != '/';
    assert RStripSlashes(head) == RStripSlashes(dir);
    assert RStripSlashes(dir) == dir;
  }

  /** A position holding `c` with no `c` after it is the last occurrence. */
  lemma {:induction false} LastIndexAt(s: string, c: char, k: nat)
    requires k < |s| && s[k] == c && c !in s[k + 1..]
    ensures LastIndexOf(s, c) == Some(k)
  {
    if k < |s| - 1 {
      assert s[|s| - 1] in s[k + 1..];
      var t := s[..|s| - 1];
      assert t[k + 1..] == s[k + 1..|s| - 1];
      assert s[k + 1..] == s[k + 1..|s| - 1] + [s[|s| - 1]];
      LastIndexAt(t, c, k);
    }
  }

  /** The stem of `<stem>.<ext>` is `<stem>` when the stem has no dot and
      does not start empty. */
  lemma StemOf(stem: string, ext: string)
    requires stem != [] && '.' !in stem && '.' !in ext
    ensures Stem(stem + "." + ext) == stem
  {
    var name := stem + "." + ext;
    assert name[|stem| + 1..] == ext;
    assert name[|stem|] == '.';
    LastIndexAt(name, '.', |stem|);
    assert name[..|stem|] == stem;
    assert stem[0] != '.' by { assert stem[0] in stem; }
  }
}
