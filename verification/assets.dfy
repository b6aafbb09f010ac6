/** The asset generator: where a post's assets and the inline SVGs live in the
    source tree, and the static-file entries `Assets#generate` registers. */
module Assets {
  import opened Text
  import opened Paths
  import opened SiteModel
  import opened Seqs

  const AssetsDir := "_assets"
  const InlineDir := "inline"
  const StaticDir := "static"

  /** `AssetFile#path`: the source file an entry is copied from. */
  function AssetPath(f: AssetFile): (r: string)
    ensures |f.name| <= |r| && r[|r| - |f.name|..] == f.name
  {
    JoinKeepsParts(f.base, f.name);
    Join(f.base, f.name)
  }

  /** For a base without a trailing separator and a relative name, the source file is
      `base/name`. */
  lemma AssetPathIsBaseSlashName(f: AssetFile)
    requires |f.base| == 0 || f.base[|f.base| - 1] != '/'
    requires |f.name| == 0 || f.name[0] != '/'
    ensures AssetPath(f) == f.base + "/" + f.name
  {
    JoinPlain(f.base, f.name);
  }

  /** One line of `post.path.gsub(/(.*)\/(.*)\.md/, '\2')`. Both groups are greedy, so
      the match ends at the last ".md" of the line and its '/' is the last one before
      that; the line becomes the text between the two, followed by whatever came
      after the ".md". A line without such a pair is left alone. */
  function StemOfLine(line: string): string
  {
    var m := LastOccurrence(line, ".md");
    if m < 0 then line
    else
      var k := LastIndexOf(line[..m], '/');
      if k < 0 then line else line[k + 1..m] + line[m + 3..]
  }

  function StemLines(lines: seq<string>): (r: seq<string>)
    ensures |r| == |lines|
    decreases |lines|
  {
    if |lines| == 0 then [] else [StemOfLine(lines[0])] + StemLines(lines[1..])
  }

  /** Each line is rewritten on its own, in place. */
  lemma {:induction false} StemLinesAt(lines: seq<string>, k: int)
    requires 0 <= k < |lines|
    ensures StemLines(lines)[k] == StemOfLine(lines[k])
    decreases |lines|
  {
    if k > 0 {
      StemLinesAt(lines[1..], k - 1);
    }
  }

  /** `post.path.gsub(/(.*)\/(.*)\.md/, '\2')`. `.` does not match a line break, so no
      match spans two lines and each line is rewritten on its own. */
  function PostStem(path: string): string
  {
    JoinWith(StemLines(Split(path, '\n')), '\n')
  }

  /** `Assets.source_path(post)`: the post's asset directory, which always lies
      inside `_assets`. */
  function SourcePath(post: Post): (r: string)
    ensures StartsWith(r, AssetsDir + "/")
  {
    var stem := PostStem(post.path);
    if |stem| > 0 && stem[0] == '/' then
      assert DropTrailingSeps(AssetsDir) == AssetsDir;
      Join(AssetsDir, stem)
    else
      Join(AssetsDir, stem)
  }

  /** A path with no line break and no ".md" passes through the rewrite unchanged. */
  lemma PostStemWithoutMd(path: string)
    requires '\n' !in path
    requires forall j :: !OccursAt(path, j, ".md")
    ensures PostStem(path) == path
  {
    SplitNoSep(path, '\n');
  }

  /** A one-line path is rewritten as that line. */
  lemma PostStemOfLine(path: string)
    requires '\n' !in path
    ensures PostStem(path) == StemOfLine(path)
  {
    SplitNoSep(path, '\n');
    assert StemLines([path]) == [StemOfLine(path)];
  }

  /** The line `dir/stem.md` is rewritten to `stem` when the stem has no separator. */
  lemma StemOfPostLine(dir: string, stem: string)
    requires '/' !in stem
    ensures StemOfLine(dir + "/" + stem + ".md") == stem
  {
    var head := dir + "/" + stem;
    var line := head + ".md";
    assert line[|line| - 3..] == ".md";
    var m := LastOccurrence(line, ".md");
    assert m == |head|;
    assert line[..m] == head;
    LastIndexOfSkipsSuffix(dir + "/", '/', stem);
    assert line[|dir| + 1..m] == stem;
    assert line[m + 3..] == "";
  }

  /** For a post at `dir/stem.md` whose stem has no separator, the asset directory is
      `_assets/stem`. */
  lemma SourcePathOfPostFile(post: Post, dir: string, stem: string)
    requires post.path == dir + "/" + stem + ".md"
    requires '/' !in stem
    requires '\n' !in dir && '\n' !in stem
    ensures SourcePath(post) == "_assets/" + stem
  {
    assert '\n' !in post.path;
    PostStemOfLine(post.path);
    StemOfPostLine(dir, stem);
    JoinPlain(AssetsDir, stem);
  }

  /** `Assets.inline_file(name)`, i.e. `File.join("_assets", "inline", name)`. */
  function InlineFile(name: string): (r: string)
    ensures r == "_assets/inline" + (if |name| > 0 && name[0] == '/' then name else "/" + name)
  {
    JoinPlain(AssetsDir, InlineDir);
    Join(Join(AssetsDir, InlineDir), name)
  }

  /** The directory of the static tree, `File.join("_assets", "static")`. */
  function StaticBase(): (r: string)
    ensures r == "_assets/static"
  {
    JoinPlain(AssetsDir, StaticDir);
    Join(AssetsDir, StaticDir)
  }

  /** `Pathname(base).each_filename.to_a.count` for the static base. */
  lemma StaticBaseDepth()
    ensures EachFilename(StaticBase()) == [AssetsDir, StaticDir]
  {
    var a, b := AssetsDir, StaticDir;
    assert StaticBase() == a + ['/'] + b;
    SplitNoSep(b, '/');
    SplitAtSep(a, '/', b);
    NonEmptyKeepsFull([a, b]);
  }

  /** `list.drop(n)`. */
  function Drop(parts: seq<string>, n: nat): seq<string>
  {
    if n <= |parts| then parts[n..] else []
  }

  /** The entry `generate` registers for a regular file of the static tree at `base`:
      its name is the file's path with the base's components dropped. */
  function StaticEntry(base: string, file: string): AssetFile
  {
    AssetFile(base, StaticDir, JoinWith(Drop(EachFilename(file), |EachFilename(base)|), '/'))
  }

  /** A relative path every component of which is non-empty: no leading, trailing or
      doubled separator. */
  predicate IsPlainRelative(rel: string) {
    forall k :: 0 <= k < |Split(rel, '/')| ==> Split(rel, '/')[k] != ""
  }

  /** The components of `a/b/rel`, for single components `a` and `b` and a plain
      relative `rel`. */
  lemma EachFilenameOfPlainPath(a: string, b: string, rel: string)
    requires a != "" && '/' !in a && b != "" && '/' !in b
    requires IsPlainRelative(rel)
    ensures EachFilename(a + "/" + b + "/" + rel) == [a, b] + Split(rel, '/')
  {
    var file := a + "/" + b + "/" + rel;
    assert file == a + ['/'] + (b + ['/'] + rel);
    SplitAtSep(a, '/', b + ['/'] + rel);
    SplitAtSep(b, '/', rel);
    SplitNoSep(a, '/');
    SplitNoSep(b, '/');
    NonEmptyAppend([a, b], Split(rel, '/'));
    NonEmptyKeepsFull([a, b]);
    NonEmptyKeepsFull(Split(rel, '/'));
  }

  /** A file at `_assets/static/rel` is registered under the name `rel`, so the
      entry's `path` is the file it came from. */
  lemma StaticEntryRoundTrip(rel: string)
    requires IsPlainRelative(rel)
    ensures StaticEntry(StaticBase(), StaticBase() + "/" + rel).name == rel
    ensures AssetPath(StaticEntry(StaticBase(), StaticBase() + "/" + rel)) == StaticBase() + "/" + rel
  {
    var file := StaticBase() + "/" + rel;
    EachFilenameOfPlainPath(AssetsDir, StaticDir, rel);
    StaticBaseDepth();
    assert Drop(EachFilename(file), 2) == Split(rel, '/');
    JoinSplit(rel, '/');
    assert rel != "" && rel[0] != '/';
    JoinPlain(StaticBase(), rel);
  }

  /** The files of a listing that are not directories, in listing order. */
  function RegularFiles(dirs: set<string>, listing: seq<string>): seq<string>
    decreases |listing|
  {
    if |listing| == 0 then []
    else
      var n := |listing| - 1;
      RegularFiles(dirs, listing[..n]) + (if listing[n] in dirs then [] else [listing[n]])
  }

  /** A path is kept exactly when it is listed and is not a directory. */
  lemma {:induction false} RegularFilesMembers(dirs: set<string>, listing: seq<string>, x: string)
    ensures x in RegularFiles(dirs, listing) <==> x in listing && x !in dirs
    decreases |listing|
  {
    if |listing| > 0 {
      var n := |listing| - 1;
      RegularFilesMembers(dirs, listing[..n], x);
      TakeOneMore(listing, n);
      TakeAll(listing);
    }
  }

  /** A listing without directories is kept whole. */
  lemma {:induction false} RegularFilesOfFiles(dirs: set<string>, listing: seq<string>)
    requires forall k :: 0 <= k < |listing| ==> listing[k] !in dirs
    ensures RegularFiles(dirs, listing) == listing
    decreases |listing|
  {
    if |listing| > 0 {
      var n := |listing| - 1;
      RegularFilesOfFiles(dirs, listing[..n]);
      TakeOneMore(listing, n);
      TakeAll(listing);
    }
  }

  /** One entry per regular file of the static tree at `base`, in listing order. */
  function StaticEntries(base: string, dirs: set<string>, listing: seq<string>): seq<AssetFile>
  {
    MapWith(StaticEntry, base, RegularFiles(dirs, listing))
  }
}
