/** The `latex` block: a LaTeX body is rendered to an SVG by a web service once, cached
    in the post's asset directory under a name derived from the body's digest, and
    registered as a static file; the block always renders to an `<img>` of it. */
module Latex {
  import opened Text
  import opened Numbers
  import opened Paths
  import opened SiteModel
  import opened Assets
  import opened Seqs

  predicate IsHexDigit(c: char) {
    ('0' <= c <= '9') || ('a' <= c <= 'f')
  }

  /** What `Digest::SHA1.hexdigest` returns: 40 lower-case hex digits. */
  type Digest = s: string | |s| == 40 && forall i :: 0 <= i < |s| ==> IsHexDigit(s[i])
    witness "0000000000000000000000000000000000000000"

  /** The library calls `render` makes, as parameters: `URI.encode`,
      `Digest::SHA1.hexdigest`, and reading a URL with `open` (None when the request
      raises). */
  datatype Services = Services(
    uriEncode: string -> string,
    sha1: string -> Digest,
    fetch: string -> Option<string>)

  /** The rendering service the encoded body is appended to. */
  const RenderUrl := "https://latex.codecogs.com/svg.latex?"

  /** A parsed `{% latex figno %}` tag: its argument is the figure number. */
  datatype LatexBlock = LatexBlock(figno: string)

  /** `LatexBlock#initialize`: the tag argument, stripped. */
  function NewBlock(input: string): (b: LatexBlock)
    ensures StripsAt(input, StripStart(input), StripStart(input) + |b.figno|)
    ensures b.figno == input[StripStart(input)..StripStart(input) + |b.figno|]
  {
    var figno := Strip(input);
    LatexBlock(figno)
  }

  /** The block body as sent to the service: stripped as a whole, then URI-encoded. */
  function EncodedBody(env: Services, body: string): string
  {
    env.uriEncode(Strip(body))
  }

  /** The first eight hex digits of the encoded body's SHA-1. */
  function Fingerprint(env: Services, body: string): (r: string)
    ensures |r| == 8
    ensures forall i :: 0 <= i < |r| ==> IsHexDigit(r[i])
    ensures r == env.sha1(EncodedBody(env, body))[..8]
  {
    env.sha1(EncodedBody(env, body))[..8]
  }

  /** The cached artifact's file name. */
  function ArtifactName(figno: string, fp: string): (r: string)
    ensures StartsWith(r, "fig-") && r[|r| - 4..] == ".svg"
    ensures |r| == |figno| + |fp| + 15
  {
    "fig-" + figno + "-latex-" + fp + ".svg"
  }

  /** The artifact directory: `File.join("_assets", <post stem>)`, written out again in
      the block but the same directory the asset generator serves the post's assets
      from. */
  function ArtifactDir(post: Post): (r: string)
    ensures r == SourcePath(post)
  {
    Join(AssetsDir, PostStem(post.path))
  }

  /** The fixed opening and closing of the `<img>` the block renders to. */
  const ImgOpen := "<img src=\"."
  const ImgClose := "\" />"

  /** The `<img>` for the artifact `name` of the post at `url`, with `alt` text `alt`
      (the figure label). */
  function ImgMarkup(url: string, name: string, alt: string): (r: string)
    ensures StartsWith(r, ImgOpen) && |ImgClose| <= |r| && r[|r| - |ImgClose|..] == ImgClose
  {
    Enclose(ImgOpen, url + "/" + name + "\" alt=\"" + alt, ImgClose)
  }

  /** Where `render` left the site, what it returned (or the exception it raised) and
      the URLs it requested. Effects made before an exception stay in `site`. */
  datatype Rendered = Rendered(site: Site, out: Result<string>, requests: seq<string>)

  /** `Dir.mkdir(dir)` unless `Dir.exist?(dir)`. */
  function EnsureDir(site: Site, dir: string): (r: Result<Site>)
    ensures r.Ok? ==> dir in r.value.dirs && r.value.dirs == site.dirs + {dir}
    ensures r.Ok? ==> r.value.files == site.files && r.value.staticFiles == site.staticFiles
    ensures r.Ok? ==> r.value.posts == site.posts
    ensures dir in site.dirs ==> r == Ok(site)
    ensures r.Err? <==> dir !in site.dirs && (dir in site.files || ParentDir(dir) !in site.dirs)
  {
    if dir in site.dirs then Ok(site) else MakeDir(site, dir)
  }

  /** The cache-miss step: fetch the rendered SVG, write it to `file`, and register it
      as a static file copied from `dir` to the post's URL under `name`. A failed
      request or write leaves the site as it was. */
  function Fill(site: Site, env: Services, url: string, file: string, entry: AssetFile, markup: string): (r: Rendered)
    ensures r.requests == [url]
    ensures r.out.Err? <==> env.fetch(url).None? || file in site.dirs || ParentDir(file) !in site.dirs
    ensures r.out.Err? ==> r.site == site
    ensures r.out.Ok? ==> && r.out == Ok(markup)
                          && r.site.files == site.files[file := env.fetch(url).value]
                          && r.site.staticFiles == site.staticFiles + [entry]
                          && r.site.dirs == site.dirs && r.site.posts == site.posts
  {
    match env.fetch(url)
    case None => Rendered(site, Err(FetchFailed(url)), [url])
    case Some(data) =>
      match WriteFile(site, file, data)
      case Err(e) => Rendered(site, Err(e), [url])
      case Ok(written) =>
        Rendered(written.(staticFiles := written.staticFiles + [entry]), Ok(markup), [url])
  }

  /** `render` once the name is known: make the directory unless it is there, and
      fill the cache unless the file is there; either way the result is `markup`.
      Only `file` may be written, and only with what `url` returned; a failure
      writes and registers nothing. */
  function Cached(site: Site, env: Services, dir: string, file: string, url: string, entry: AssetFile, markup: string): (r: Rendered)
    ensures site.dirs <= r.site.dirs <= site.dirs + {dir}
    ensures r.site.posts == site.posts
    ensures r.out.Ok? ==> r.out == Ok(markup) && dir in r.site.dirs && Exists(r.site, file)
    ensures r.requests == [] || r.requests == [url]
    ensures r.site.staticFiles == site.staticFiles || r.site.staticFiles == site.staticFiles + [entry]
    ensures r.site.files == site.files
         || (env.fetch(url).Some? && r.site.files == site.files[file := env.fetch(url).value])
    ensures r.out.Err? ==> r.site.files == site.files && r.site.staticFiles == site.staticFiles
  {
    match EnsureDir(site, dir)
    case Err(e) => Rendered(site, Err(e), [])
    case Ok(ready) =>
      if Exists(ready, file) then Rendered(ready, Ok(markup), [])
      else Fill(ready, env, url, file, entry, markup)
  }

  /** The artifact file of a block: the artifact name inside the artifact directory. */
  function ArtifactFile(block: LatexBlock, body: string, post: Post, env: Services): string
  {
    Join(ArtifactDir(post), ArtifactName(block.figno, Fingerprint(env, body)))
  }

  /** `LatexBlock#render` for the block's `body` inside `post`. The artifact directory
      is the only directory it can create, and is there after a success; at most one
      request is made, for the encoded body; only the artifact file can be written,
      with the reply; the registry gains at most the artifact's entry; a failure
      writes and registers nothing; a success is the `<img>` of the artifact. */
  function Render(block: LatexBlock, body: string, post: Post, site: Site, env: Services): (r: Rendered)
    ensures var dir := ArtifactDir(post);
      var file := ArtifactFile(block, body, post, env);
      var url := RenderUrl + EncodedBody(env, body);
      && site.dirs <= r.site.dirs <= site.dirs + {dir}
      && r.site.posts == site.posts
      && (r.requests == [] || r.requests == [url])
      && (r.site.files == site.files
          || (env.fetch(url).Some? && r.site.files == site.files[file := env.fetch(url).value]))
      && (r.site.staticFiles == site.staticFiles
          || r.site.staticFiles == site.staticFiles + [AssetFile(dir, post.url, Basename(file))])
      && (r.out.Err? ==> r.site.files == site.files && r.site.staticFiles == site.staticFiles)
      && (r.out.Ok? ==> && dir in r.site.dirs && Exists(r.site, file)
                        && r.out == Ok(ImgMarkup(post.url, Basename(file), FigureLabel(block.figno))))
  {
    var dir := ArtifactDir(post);
    var file := ArtifactFile(block, body, post, env);
    var name := Basename(file);
    Cached(site, env, dir, file, RenderUrl + EncodedBody(env, body), AssetFile(dir, post.url, name),
      ImgMarkup(post.url, name, FigureLabel(block.figno)))
  }

  /** The registry after a render keeps every earlier entry in place and has at most
      one more. */
  lemma RenderKeepsRegistry(block: LatexBlock, body: string, post: Post, site: Site, env: Services)
    ensures var r := Render(block, body, post, site, env);
      && |site.staticFiles| <= |r.site.staticFiles| <= |site.staticFiles| + 1
      && r.site.staticFiles[..|site.staticFiles|] == site.staticFiles
  {
    var r := Render(block, body, post, site, env);
    var xs := site.staticFiles;
    if r.site.staticFiles != xs {
      var e :| r.site.staticFiles == xs + [e];
      assert (xs + [e])[..|xs|] == xs;
    }
  }

  /** Once `Cached` has succeeded, running it again finds everything in place. */
  lemma CachedTwice(site: Site, env: Services, dir: string, file: string, url: string, entry: AssetFile, markup: string)
    requires Cached(site, env, dir, file, url, entry, markup).out.Ok?
    ensures var r1 := Cached(site, env, dir, file, url, entry, markup);
      Cached(r1.site, env, dir, file, url, entry, markup) == Rendered(r1.site, r1.out, [])
  {
  }

  // Properties

  /** The name gives back both the figure number and the fingerprint: distinct
      fingerprints never share a cache file. */
  lemma ArtifactNameInjective(f1: string, p1: string, f2: string, p2: string)
    requires |p1| == 8 && |p2| == 8
    ensures ArtifactName(f1, p1) == ArtifactName(f2, p2) <==> f1 == f2 && p1 == p2
  {
    var n1, n2 := ArtifactName(f1, p1), ArtifactName(f2, p2);
    if n1 == n2 {
      assert |f1| == |f2|;
      var k := |f1|;
      assert n1[4..4 + k] == f1;
      assert n2[4..4 + k] == f2;
      assert n1[k + 11..k + 19] == p1;
      assert n2[k + 11..k + 19] == p2;
    }
  }

  /** Leading and trailing whitespace around the body never changes the fingerprint. */
  lemma FingerprintIgnoresPadding(env: Services, before: string, body: string, after: string)
    requires AllStripSpace(before) && AllStripSpace(after)
    ensures Fingerprint(env, before + body + after) == Fingerprint(env, body)
  {
    StripIgnoresPadding(before, body, after);
  }

  /** A figure number without separators names the artifact itself: the file is the
      artifact name inside the artifact directory. */
  lemma ArtifactFileName(figno: string, fp: string, dir: string)
    requires '/' !in figno
    requires forall i :: 0 <= i < |fp| ==> IsHexDigit(fp[i])
    ensures Basename(Join(dir, ArtifactName(figno, fp))) == ArtifactName(figno, fp)
  {
    assert '/' !in fp by {
      forall i | 0 <= i < |fp|
        ensures fp[i] != '/'
      {
        assert IsHexDigit(fp[i]);
      }
    }
    var name := ArtifactName(figno, fp);
    assert name[0] == 'f';
    BasenameOfJoin(dir, name);
  }

  /** Cache hit: with the directory and the file already present, nothing is fetched,
      written or registered, and the block renders to the `<img>` of the artifact. */
  lemma RenderCacheHit(block: LatexBlock, body: string, post: Post, site: Site, env: Services)
    requires '/' !in block.figno
    requires ArtifactDir(post) in site.dirs
    requires Exists(site, Join(ArtifactDir(post), ArtifactName(block.figno, Fingerprint(env, body))))
    ensures var r := Render(block, body, post, site, env);
      && r.site == site
      && r.requests == []
      && r.out == Ok(ImgMarkup(post.url, ArtifactName(block.figno, Fingerprint(env, body)), FigureLabel(block.figno)))
  {
    ArtifactFileName(block.figno, Fingerprint(env, body), ArtifactDir(post));
  }

  /** Cache miss: the artifact directory is created unless it is there (the first
      figure of a post), the service is asked once for the encoded body, the reply is
      written to the artifact file, and exactly one entry is registered, whose `path`
      is that file. */
  lemma RenderCacheMiss(block: LatexBlock, body: string, post: Post, site: Site, env: Services, data: string)
    requires '/' !in block.figno
    requires ArtifactDir(post) !in site.files
    requires ArtifactDir(post) in site.dirs || ParentDir(ArtifactDir(post)) in site.dirs
    requires var dir := ArtifactDir(post); dir[|dir| - 1] != '/'
    requires !Exists(site, Join(ArtifactDir(post), ArtifactName(block.figno, Fingerprint(env, body))))
    requires env.fetch(RenderUrl + EncodedBody(env, body)) == Some(data)
    ensures var dir := ArtifactDir(post);
      var name := ArtifactName(block.figno, Fingerprint(env, body));
      var file := Join(dir, name);
      var r := Render(block, body, post, site, env);
      && r.requests == [RenderUrl + EncodedBody(env, body)]
      && r.site.dirs == site.dirs + {dir}
      && r.site.files == site.files[file := data]
      && r.site.staticFiles == site.staticFiles + [AssetFile(dir, post.url, name)]
      && AssetPath(AssetFile(dir, post.url, name)) == file
      && r.out == Ok(ImgMarkup(post.url, name, FigureLabel(block.figno)))
  {
    var dir := ArtifactDir(post);
    var name := ArtifactName(block.figno, Fingerprint(env, body));
    var file := Join(dir, name);
    ArtifactFileName(block.figno, Fingerprint(env, body), dir);
    assert '/' !in name by {
      assert Basename(Join(dir, name)) == name && name != "/";
    }
    ParentOfJoin(dir, name);
    JoinPlain(dir, name);
    assert file != dir by {
      assert |file| > |dir|;
    }
  }

  /** Rendering again after a successful render finds the cache filled: no second
      request, no change to the site, the same markup. */
  lemma RenderTwice(block: LatexBlock, body: string, post: Post, site: Site, env: Services)
    requires Render(block, body, post, site, env).out.Ok?
    ensures var r1 := Render(block, body, post, site, env);
      var r2 := Render(block, body, post, r1.site, env);
      && r2.site == r1.site
      && r2.requests == []
      && r2.out == r1.out
  {
    var dir := ArtifactDir(post);
    var file := Join(dir, ArtifactName(block.figno, Fingerprint(env, body)));
    var name := Basename(file);
    CachedTwice(site, env, dir, file, RenderUrl + EncodedBody(env, body), AssetFile(dir, post.url, name),
      ImgMarkup(post.url, name, FigureLabel(block.figno)));
  }
}
