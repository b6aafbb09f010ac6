/** Ruby's path helpers as the plugins use them: `File.join`, `File.basename` and
    `Pathname#each_filename`, plus the parent directory the file system consults
    when it creates an entry. Paths are plain strings with '/' as the separator. */
module Paths {
  import opened Text

  /** `p` without its trailing separators. */
  function DropTrailingSeps(p: string): (r: string)
    ensures |r| <= |p| && r == p[..|r|]
    ensures |r| == 0 || r[|r| - 1] != '/'
    ensures forall k :: |r| <= k < |p| ==> p[k] == '/'
    decreases |p|
  {
    if |p| > 0 && p[|p| - 1] == '/' then DropTrailingSeps(p[..|p| - 1]) else p
  }

  /** `File.join(a, b)`: a separator is added at the seam when neither side has one,
      and the left part loses its trailing separators when the right part starts
      with one. */
  function Join(a: string, b: string): string
  {
    if |b| > 0 && b[0] == '/' then DropTrailingSeps(a) + b
    else if |a| > 0 && a[|a| - 1] == '/' then a + b
    else a + "/" + b
  }

  /** What `File.join` keeps: the right part verbatim, the left part up to its
      trailing separators, and a separator at the seam. */
  lemma JoinKeepsParts(a: string, b: string)
    ensures var r := Join(a, b);
      && |b| <= |r| && r[|r| - |b|..] == b
      && DropTrailingSeps(r[..|r| - |b|]) == DropTrailingSeps(a)
      && ((|b| > 0 && b[0] == '/') || (|r| > |b| && r[|r| - |b| - 1] == '/'))
  {
    var r := Join(a, b);
    if |b| > 0 && b[0] == '/' {
      assert r[..|r| - |b|] == DropTrailingSeps(a);
    } else if |a| > 0 && a[|a| - 1] == '/' {
      assert r[..|r| - |b|] == a;
    } else {
      assert r[..|r| - |b|] == a + "/";
      assert (a + "/")[..|a|] == a;
    }
  }

  /** Without separators at the seam, `File.join` puts exactly one between the parts. */
  lemma JoinPlain(a: string, b: string)
    requires |a| == 0 || a[|a| - 1] != '/'
    requires |b| == 0 || b[0] != '/'
    ensures Join(a, b) == a + "/" + b
  {
  }

  /** The text after the last separator of `t` (all of `t` when it has none). */
  function AfterLastSep(t: string): (r: string)
    ensures '/' !in r
    ensures |r| <= |t| && r == t[|t| - |r|..]
    ensures |r| < |t| ==> t[|t| - |r| - 1] == '/'
    decreases |t|
  {
    if |t| == 0 || t[|t| - 1] == '/' then ""
    else AfterLastSep(t[..|t| - 1]) + [t[|t| - 1]]
  }

  lemma {:induction false} AfterLastSepOfSuffix(x: string, b: string)
    requires |x| > 0 && x[|x| - 1] == '/'
    requires '/' !in b
    ensures AfterLastSep(x + b) == b
    decreases |b|
  {
    if |b| == 0 {
      assert x + b == x;
    } else {
      assert (x + b)[..|x + b| - 1] == x + b[..|b| - 1];
      AfterLastSepOfSuffix(x, b[..|b| - 1]);
      assert b[..|b| - 1] + [b[|b| - 1]] == b;
    }
  }

  /** `File.basename(p)`: the last non-empty component, "/" for a path made only of
      separators, "" for the empty path. */
  function Basename(p: string): (r: string)
    ensures r == "/" || '/' !in r
    ensures r == "" <==> p == ""
  {
    var t := DropTrailingSeps(p);
    if |t| == 0 then (if |p| == 0 then "" else "/")
    else
      var r := AfterLastSep(t);
      assert |r| > 0 by {
        assert t[|t| - 1] != '/';
      }
      r
  }

  /** The basename of a join is the joined name, when that name is a plain file name. */
  lemma BasenameOfJoin(a: string, b: string)
    requires b != "" && '/' !in b
    ensures Basename(Join(a, b)) == b
  {
    var r := Join(a, b);
    var n := |r| - |b|;
    JoinKeepsParts(a, b);
    assert b[0] != '/' && b[|b| - 1] != '/';
    assert r[n - 1] == '/';
    assert r[|r| - 1] == b[|b| - 1];
    assert DropTrailingSeps(r) == r;
    var x := r[..n];
    assert r == x + b;
    AfterLastSepOfSuffix(x, b);
  }

  /** `Pathname#each_filename`: the non-empty components, in order. */
  function EachFilename(p: string): seq<string>
  {
    NonEmpty(Split(p, '/'))
  }

  /** The directory an entry at `p` is created in ("." for a bare name). */
  function ParentDir(p: string): string
  {
    var k := LastIndexOf(p, '/');
    if k < 0 then "." else p[..k]
  }

  /** An entry joined onto a directory lives in that directory. */
  lemma ParentOfJoin(a: string, b: string)
    requires |a| == 0 || a[|a| - 1] != '/'
    requires '/' !in b
    ensures ParentDir(Join(a, b)) == a
  {
    JoinPlain(a, b);
    LastIndexOfSkipsSuffix(a + "/", '/', b);
    assert (a + "/" + b)[..|a|] == a;
  }
}
