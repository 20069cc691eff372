/**
 * `FileSystem.resolve_path` and the POSIX path functions it and the
 * extraction service are built from (`os.path` on a POSIX host):
 * `dirname`, `basename`, `join`, `splitext` and `normpath`.
 */
module Paths {
  import opened Strings

  /** Index of the last `c` in `s`, or -1 (`s.rfind(c)`). */
  function LastIndexOf(s: string, c: char): (i: int)
    ensures -1 <= i < |s|
    ensures i >= 0 ==> s[i] == c
    ensures c in s ==> i >= 0
    ensures forall k :: i < k < |s| ==> s[k] != c
  {
    if s == [] then -1
    else if s[|s| - 1] == c then |s| - 1
    else LastIndexOf(s[..|s| - 1], c)
  }

  /** The last `c` of `d + f` lies in `f` when `f` has one, and in `d` otherwise. */
  lemma {:induction false} LastIndexOfAppend(d: string, f: string, c: char)
    ensures LastIndexOf(d + f, c) == if c in f then |d| + LastIndexOf(f, c) else LastIndexOf(d, c)
    decreases |f|
  {
    if f == [] {
      assert d + f == d;
    } else if f[|f| - 1] != c {
      var g := f[..|f| - 1];
      assert (d + f)[..|d + f| - 1] == d + g;
      assert c in f <==> c in g by {
        if c in f {
          var k :| 0 <= k < |f| && f[k] == c;
          assert g[k] == c;
        }
      }
      LastIndexOfAppend(d, g, c);
    }
  }

  /** `s.rstrip('/')`. */
  function RstripSlashes(s: string): (r: string)
    ensures |r| <= |s| && r == s[..|r|]
    ensures forall k :: |r| <= k < |s| ==> s[k] == '/'
    ensures r == [] || r[|r| - 1] != '/'
  {
    if s != [] && s[|s| - 1] == '/' then RstripSlashes(s[..|s| - 1]) else s
  }

  predicate AllSlashes(s: string) {
    forall k :: 0 <= k < |s| ==> s[k] == '/'
  }

  /**
   * `os.path.dirname`: everything up to the last '/', with trailing
   * slashes removed unless the head is slashes only.
   */
  function Dirname(p: string): (r: string)
    ensures |r| <= |p| - |Basename(p)| && r == p[..|r|]
    ensures r != "" <==> '/' in p
    ensures r == [] || AllSlashes(r) || r[|r| - 1] != '/'
    ensures AllSlashes(p[|r|..|p| - |Basename(p)|])
    ensures AllSlashes(p[..|p| - |Basename(p)|]) ==> r == p[..|p| - |Basename(p)|]
  {
    var head := p[..LastIndexOf(p, '/') + 1];
    if head != [] && !AllSlashes(head) then RstripSlashes(head) else head
  }

  /** `os.path.basename`: everything after the last '/'. */
  function Basename(p: string): (b: string)
    ensures '/' !in b
    ensures |b| <= |p| && p == p[..|p| - |b|] + b
    ensures |b| < |p| ==> p[|p| - |b| - 1] == '/'
  {
    p[LastIndexOf(p, '/') + 1..]
  }

  /**
   * `os.path.join(a, b)`: an absolute `b` replaces `a`; otherwise `b` is
   * appended, with a '/' between unless `a` is empty or already ends in one.
   */
  function Join(a: string, b: string): (r: string)
    ensures StartsWith(b, "/") ==> r == b
    ensures !StartsWith(b, "/") ==> |a| <= |r| - |b| <= |a| + 1 && r == a + r[|a|..|r| - |b|] + b
    ensures !StartsWith(b, "/") && a != [] ==> r[|r| - |b| - 1] == '/'
    ensures !StartsWith(b, "/") && (a == [] || a[|a| - 1] == '/') ==> r == a + b
    ensures !StartsWith(b, "/") && a != [] && a[|a| - 1] != '/' ==> r == a + "/" + b
  {
    if StartsWith(b, "/") then b
    else if a == [] || a[|a| - 1] == '/' then a + b
    else a + "/" + b
  }

  /** `a` followed by the '/' that `join` puts after it, if any. */
  function WithSep(a: string): (r: string)
    ensures r == a || r == a + "/"
    ensures r == [] || r[|r| - 1] == '/'
    ensures a == [] || a[|a| - 1] == '/' ==> r == a
    ensures a != [] && a[|a| - 1] != '/' ==> r == a + "/"
  {
    if a == [] || a[|a| - 1] == '/' then a else a + "/"
  }

  /** Joining a relative path appends it to the directory and its separator. */
  lemma JoinRelative(a: string, b: string)
    requires !StartsWith(b, "/")
    ensures Join(a, b) == WithSep(a) + b
  {
  }

  /** A string without '/' is relative. */
  lemma NoSlashRelative(f: string)
    requires '/' !in f
    ensures !StartsWith(f, "/")
  {
    if f != [] {
      assert f[..1][0] == f[0];
    }
  }

  /**
   * `os.path.splitext(p)[0]`: `p` without its extension. The extension
   * starts at the last '.' after the last '/', provided some character
   * other than '.' comes before that dot in the file name (leading dots
   * do not start an extension).
   */
  function StripExtension(p: string): (r: string)
    ensures |r| <= |p| && r == p[..|r|]
  {
    var sepIndex := LastIndexOf(p, '/');
    var dotIndex := LastIndexOf(p, '.');
    if dotIndex > sepIndex && exists k :: sepIndex + 1 <= k < dotIndex && p[k] != '.' then
      p[..dotIndex]
    else
      p
  }

  /**
   * `p[d]` is the dot that starts `p`'s extension: the last '.', with no
   * '/' after it, and a character other than '.' or '/' before it in the
   * same file name.
   */
  predicate ExtensionAt(p: string, d: int) {
    && 0 <= d < |p|
    && p[d] == '.'
    && (forall k :: d < k < |p| ==> p[k] != '.' && p[k] != '/')
    && (exists k :: 0 <= k < d && p[k] != '.' && p[k] != '/' && forall j :: k < j < d ==> p[j] != '/')
  }

  /** A path has at most one extension dot. */
  lemma ExtensionAtUnique(p: string, d: int, e: int)
    requires ExtensionAt(p, d) && ExtensionAt(p, e)
    ensures d == e
  {
  }

  /**
   * `splitext` cuts `p` exactly at its extension dot, and leaves `p` whole
   * exactly when it has none.
   */
  lemma StripExtensionCuts(p: string)
    ensures StripExtension(p) == p || (|StripExtension(p)| < |p| && ExtensionAt(p, |StripExtension(p)|))
    ensures StripExtension(p) == p <==> forall d :: 0 <= d < |p| ==> !ExtensionAt(p, d)
  {
    var sepIndex := LastIndexOf(p, '/');
    var dotIndex := LastIndexOf(p, '.');
    if dotIndex > sepIndex && exists k :: sepIndex + 1 <= k < dotIndex && p[k] != '.' {
      var k :| sepIndex + 1 <= k < dotIndex && p[k] != '.';
      assert ExtensionAt(p, dotIndex);
    } else {
      forall d | 0 <= d < |p|
        ensures !ExtensionAt(p, d)
      {
        if ExtensionAt(p, d) {
          var k :| 0 <= k < d && p[k] != '.' && p[k] != '/' && forall j :: k < j < d ==> p[j] != '/';
          assert false;
        }
      }
    }
  }

  /** `path.split('/')`. */
  function Split(s: string): (parts: seq<string>)
    ensures |parts| >= 1
    ensures forall i :: 0 <= i < |parts| ==> '/' !in parts[i]
  {
    if s == [] then [""]
    else
      var rest := Split(s[1..]);
      if s[0] == '/' then [""] + rest else [[s[0]] + rest[0]] + rest[1..]
  }

  /** A string without '/' splits into itself alone. */
  lemma {:induction false} SplitNoSlash(a: string)
    requires '/' !in a
    ensures Split(a) == [a]
    decreases |a|
  {
    if a != [] {
      assert '/' !in a[1..];
      SplitNoSlash(a[1..]);
      assert [a[0]] + a[1..] == a;
    }
  }

  /** Splitting at the first '/': the first part is the text before it. */
  lemma {:induction false} SplitFirst(a: string, b: string)
    requires '/' !in a
    ensures Split(a + "/" + b) == [a] + Split(b)
    decreases |a|
  {
    var s := a + "/" + b;
    if a == [] {
      assert s[0] == '/' && s[1..] == b;
    } else {
      assert s[0] == a[0] && s[1..] == a[1..] + "/" + b;
      assert '/' !in a[1..];
      SplitFirst(a[1..], b);
      assert [a[0]] + a[1..] == a;
    }
  }

  /** `'/'.join(parts)`. */
  function Joined(parts: seq<string>): string {
    if parts == [] then ""
    else if |parts| == 1 then parts[0]
    else parts[0] + "/" + Joined(parts[1..])
  }

  /**
   * One step of `normpath`'s loop over the components: skip "" and ".",
   * let ".." remove the previous component when there is one to remove,
   * and keep it otherwise (except directly under the root).
   */
  function NormStep(acc: seq<string>, comp: string, rooted: bool): seq<string> {
    if comp == "" || comp == "." then acc
    else if comp != ".." || (!rooted && acc == []) || (acc != [] && acc[|acc| - 1] == "..") then acc + [comp]
    else if acc != [] then acc[..|acc| - 1]
    else acc
  }

  /** `normpath`'s loop: the steps applied to the components in order. */
  function NormComps(comps: seq<string>, rooted: bool): seq<string> {
    if comps == [] then []
    else NormStep(NormComps(comps[..|comps| - 1], rooted), comps[|comps| - 1], rooted)
  }

  /**
   * A normalised component list: no empty, "." or '/'-holding component,
   * ".." only in a leading run, and none at all under the root.
   */
  predicate NormalComps(comps: seq<string>, rooted: bool) {
    && (forall i :: 0 <= i < |comps| ==> comps[i] != "" && comps[i] != "." && '/' !in comps[i])
    && (rooted ==> forall i :: 0 <= i < |comps| ==> comps[i] != "..")
    && (forall i, j :: 0 <= i < j < |comps| && comps[j] == ".." ==> comps[i] == "..")
  }

  lemma {:induction false} NormCompsNormal(comps: seq<string>, rooted: bool)
    requires forall i :: 0 <= i < |comps| ==> '/' !in comps[i]
    ensures NormalComps(NormComps(comps, rooted), rooted)
    decreases |comps|
  {
    if comps != [] {
      var init := comps[..|comps| - 1];
      NormCompsNormal(init, rooted);
    }
  }

  /** Number of leading slashes `normpath` keeps: none, one, or two exactly. */
  function InitialSlashes(p: string): (n: int)
    ensures 0 <= n <= 2
  {
    if !StartsWith(p, "/") then 0
    else if StartsWith(p, "//") && !StartsWith(p, "///") then 2
    else 1
  }

  /** `os.path.normpath` on a POSIX host. */
  function NormPath(p: string): (r: string)
    ensures r != ""
  {
    if p == "" then "."
    else
      var n := InitialSlashes(p);
      var body := Joined(NormComps(Split(p), n > 0));
      var r := (if n == 2 then "//" else if n == 1 then "/" else "") + body;
      if r == "" then "." else r
  }

  /**
   * The components of a normalised path form a normal list, and the path
   * keeps its leading slashes.
   */
  lemma NormPathIsNormal(p: string)
    requires p != ""
    ensures NormalComps(NormComps(Split(p), InitialSlashes(p) > 0), InitialSlashes(p) > 0)
    ensures StartsWith(p, "/") ==> StartsWith(NormPath(p), "/")
    ensures !StartsWith(p, "/") ==> !StartsWith(NormPath(p), "/")
  {
    NormCompsNormal(Split(p), InitialSlashes(p) > 0);
    var comps := NormComps(Split(p), InitialSlashes(p) > 0);
    if comps != [] {
      assert comps[0] != "";
      JoinedStart(comps);
    }
  }

  /** A joined list starts with its first component. */
  lemma {:induction false} JoinedStart(parts: seq<string>)
    requires parts != [] && parts[0] != ""
    ensures Joined(parts) != "" && Joined(parts)[0] == parts[0][0]
  {
  }

  /**
   * `FileSystem.resolve_path`: a relative path holding a backslash is
   * refused with the empty string; any other is joined to the directory of
   * the base file and normalised, which never gives the empty string.
   */
  function ResolvePath(basePath: string, relativePath: string): (r: string)
    ensures r == "" <==> '\\' in relativePath
  {
    if '\\' in relativePath then ""
    else NormPath(Join(Dirname(basePath), relativePath))
  }

  /** After a separator, the file name is the rest of the path. */
  lemma BasenameAfterSep(w: string, f: string)
    requires w == [] || w[|w| - 1] == '/'
    requires '/' !in f
    ensures Basename(w + f) == f
  {
    LastIndexOfAppend(w, f, '/');
    assert LastIndexOf(w, '/') == |w| - 1 by {
      if w != [] {
        assert w[|w| - 1] == '/';
      }
    }
    assert (w + f)[|w|..] == f;
  }

  /** The directory of `d + f` is that of `d` when `f` has no '/'. */
  lemma DirnameOfAppend(d: string, f: string)
    requires '/' !in f
    ensures Dirname(d + f) == Dirname(d)
  {
    LastIndexOfAppend(d, f, '/');
    var i := LastIndexOf(d, '/');
    assert (d + f)[..i + 1] == d[..i + 1];
  }

  /**
   * The file name of the base path plays no part: two base paths that
   * differ only in their file names resolve a sidecar path to the same
   * result (`d` is the directory part, "" for a bare file name).
   */
  lemma SameDirectorySameResolution(d: string, f: string, g: string, rel: string)
    requires '/' !in f && '/' !in g
    ensures ResolvePath(d + f, rel) == ResolvePath(d + g, rel)
  {
    DirnameOfAppend(d, f);
    DirnameOfAppend(d, g);
  }

  /**
   * `dirname` and `basename` undo `join` of a directory not ending in '/'
   * and a file name.
   */
  lemma JoinSplits(a: string, f: string)
    requires a != [] && a[|a| - 1] != '/' && '/' !in f
    ensures Dirname(Join(a, f)) == a
    ensures Basename(Join(a, f)) == f
  {
    NoSlashRelative(f);
    var r := Join(a, f);
    assert r == (a + "/") + f;
    LastIndexOfAppend(a + "/", f, '/');
    assert LastIndexOf(a + "/", '/') == |a|;
    assert r[..|a| + 1] == a + "/";
    assert !AllSlashes(a + "/") by {
      assert (a + "/")[|a| - 1] != '/';
    }
    assert (a + "/")[..|a|] == a;
  }
}
