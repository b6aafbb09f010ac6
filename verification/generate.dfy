/** `Assets#generate`: the static-file entries registered for the static tree and for
    each post's asset directory. */
module Generate {
  import opened Text
  import opened Paths
  import opened SiteModel
  import opened Assets
  import opened Seqs

  /** The entries `generate` registers for the files listed in one post's asset
      directory: base is the post's source path, destination its URL, name the
      file's basename. No directory check is made here. */
  function PostFileEntries(base: string, url: string, listing: seq<string>): seq<AssetFile>
    decreases |listing|
  {
    if |listing| == 0 then []
    else
      var n := |listing| - 1;
      PostFileEntries(base, url, listing[..n]) + [AssetFile(base, url, Basename(listing[n]))]
  }

  /** Entry `k` is listed file `k`, named by its basename, copied from the post's
      source path to its URL. */
  lemma {:induction false} PostFileEntriesAt(base: string, url: string, listing: seq<string>, k: int)
    requires 0 <= k < |listing|
    ensures |PostFileEntries(base, url, listing)| == |listing|
    ensures PostFileEntries(base, url, listing)[k] == AssetFile(base, url, Basename(listing[k]))
    decreases |listing|
  {
    var n := |listing| - 1;
    if n > 0 {
      PostFileEntriesAt(base, url, listing[..n], if k < n then k else 0);
    }
    SnocAt(PostFileEntries(base, url, listing[..n]), AssetFile(base, url, Basename(listing[n])), k);
  }

  /** The entries `generate` registers for one post: one for each file `glob` lists
      in the post's asset directory. */
  function PostAssetEntries(post: Post, glob: string -> seq<string>): seq<AssetFile>
  {
    var base := SourcePath(post);
    PostFileEntries(base, post.url, glob(base + "/*"))
  }

  /** One block of entries per post, in post order. */
  function PostBlocks(posts: seq<Post>, glob: string -> seq<string>): seq<seq<AssetFile>>
    decreases |posts|
  {
    if |posts| == 0 then []
    else
      var n := |posts| - 1;
      PostBlocks(posts[..n], glob) + [PostAssetEntries(posts[n], glob)]
  }

  /** The entries registered for a sequence of posts, post after post. */
  function PostEntries(posts: seq<Post>, glob: string -> seq<string>): seq<AssetFile>
  {
    Concat(PostBlocks(posts, glob))
  }

  /** The blocks of two runs of posts are those of the first run, then those of the
      second. */
  lemma {:induction false} PostBlocksAppend(a: seq<Post>, b: seq<Post>, glob: string -> seq<string>)
    ensures PostBlocks(a + b, glob) == PostBlocks(a, glob) + PostBlocks(b, glob)
    decreases |b|
  {
    if |b| == 0 {
      assert a + b == a;
    } else {
      DropLastOfAppend(a, b);
      PostBlocksAppend(a, b[..|b| - 1], glob);
    }
  }

  /** The entries of the first `p + 1` posts: those of the first `p`, then post `p`'s. */
  lemma PostEntriesSnoc(posts: seq<Post>, p: int, glob: string -> seq<string>)
    requires 0 <= p < |posts|
    ensures PostEntries(posts[..p + 1], glob) == PostEntries(posts[..p], glob) + PostAssetEntries(posts[p], glob)
  {
    TakeOneMore(posts, p);
    ConcatSnoc(PostBlocks(posts[..p], glob), PostAssetEntries(posts[p], glob));
  }

  /** Post `i`'s entries form one contiguous block, after those of every earlier post
      and before those of every later one. */
  lemma PostEntriesInPostOrder(posts: seq<Post>, i: int, glob: string -> seq<string>)
    requires 0 <= i < |posts|
    ensures PostEntries(posts, glob) ==
      PostEntries(posts[..i], glob) + PostAssetEntries(posts[i], glob) + PostEntries(posts[i + 1..], glob)
  {
    var before, after := posts[..i], posts[i + 1..];
    SplitAround(posts, i);
    PostBlocksAppend(before + [posts[i]], after, glob);
    PostBlocksAppend(before, [posts[i]], glob);
    assert [posts[i]][..0] == [];
    var blocks := PostBlocks(before, glob);
    var block := PostAssetEntries(posts[i], glob);
    ConcatAppend(blocks + [block], PostBlocks(after, glob));
    ConcatSnoc(blocks, block);
  }

  /** The entries for the first `i + 1` listed paths: those for the first `i`, then
      one for path `i` unless it is a directory. */
  lemma StaticEntriesSnoc(base: string, dirs: set<string>, listing: seq<string>, i: int)
    requires 0 <= i < |listing|
    ensures StaticEntries(base, dirs, listing[..i + 1]) ==
      StaticEntries(base, dirs, listing[..i])
      + (if listing[i] in dirs then [] else [StaticEntry(base, listing[i])])
  {
    TakeOneMore(listing, i);
    var done := RegularFiles(dirs, listing[..i]);
    if listing[i] in dirs {
      assert done + [] == done;
      var m := StaticEntries(base, dirs, listing[..i]);
      assert m + [] == m;
    } else {
      MapWithSnoc(StaticEntry, base, done, listing[i]);
    }
  }

  /** The static-tree half of `generate`: one entry per listed regular file. */
  method RegisterStatic(entries: seq<AssetFile>, base: string, dirs: set<string>, listing: seq<string>)
    returns (r: seq<AssetFile>)
    ensures r == entries + StaticEntries(base, dirs, listing)
  {
    r := entries;
    var i := 0;
    while i < |listing|
      invariant 0 <= i <= |listing|
      invariant r == entries + StaticEntries(base, dirs, listing[..i])
    {
      var file := listing[i];
      ghost var done := StaticEntries(base, dirs, listing[..i]);
      ghost var step: seq<AssetFile> := if file in dirs then [] else [StaticEntry(base, file)];
      StaticEntriesSnoc(base, dirs, listing, i);
      AppendAssoc(entries, done, step);
      if file !in dirs {
        r := r + [StaticEntry(base, file)];
      } else {
        assert r + [] == r;
      }
      i := i + 1;
    }
    TakeAll(listing);
  }

  /** The registration loop for one post: one entry per listed file. */
  method RegisterPostFiles(entries: seq<AssetFile>, base: string, url: string, listing: seq<string>)
    returns (r: seq<AssetFile>)
    ensures r == entries + PostFileEntries(base, url, listing)
  {
    r := entries;
    var j := 0;
    while j < |listing|
      invariant 0 <= j <= |listing|
      invariant r == entries + PostFileEntries(base, url, listing[..j])
    {
      TakeOneMore(listing, j);
      r := r + [AssetFile(base, url, Basename(listing[j]))];
      j := j + 1;
    }
    TakeAll(listing);
  }

  /** The post half of `generate`: each post's listed assets, in post order. */
  method RegisterPosts(entries: seq<AssetFile>, posts: seq<Post>, glob: string -> seq<string>)
    returns (r: seq<AssetFile>)
    ensures r == entries + PostEntries(posts, glob)
  {
    r := entries;
    var p := 0;
    while p < |posts|
      invariant 0 <= p <= |posts|
      invariant r == entries + PostEntries(posts[..p], glob)
    {
      var post := posts[p];
      var base := SourcePath(post);
      ghost var done := PostEntries(posts[..p], glob);
      ghost var block := PostAssetEntries(post, glob);
      PostEntriesSnoc(posts, p, glob);
      AppendAssoc(entries, done, block);
      r := RegisterPostFiles(r, base, post.url, glob(base + "/*"));
      p := p + 1;
    }
    TakeAll(posts);
  }

  /** `Assets#generate`. `glob` stands for `Dir[pattern]`, the listing the file system
      returns for a pattern. Only appends to the registry: the static tree's regular
      files first, then each post's listed assets in post order. */
  method GenerateAssets(site: Site, glob: string -> seq<string>) returns (r: Site)
    ensures r.dirs == site.dirs && r.files == site.files && r.posts == site.posts
    ensures r.staticFiles ==
      site.staticFiles
      + StaticEntries(StaticBase(), site.dirs, glob(StaticBase() + "/**/*"))
      + PostEntries(site.posts, glob)
  {
    var base := StaticBase();
    var entries := RegisterStatic(site.staticFiles, base, site.dirs, glob(base + "/**/*"));
    entries := RegisterPosts(entries, site.posts, glob);
    r := site.(staticFiles := entries);
  }
}
