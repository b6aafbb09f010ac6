/** The `accompanying_src_link` tag: a link to the directory of the repository's
    source tree that holds the code accompanying a post, named after the post's id. */
module SrcLink {
  import opened SiteModel

  const TreeUrl := "https://github.com/jkillingsworth/jkillingsworth.com/tree/master/_src/"
  const LinkText := "Accompanying source code is available on GitHub."

  /** `s.gsub(from, to)` for single characters: every `from` becomes `to`. */
  function ReplaceChar(s: string, from: char, to: char): (r: string)
    ensures |r| == |s|
    ensures forall k :: 0 <= k < |s| ==> r[k] == if s[k] == from then to else s[k]
    decreases |s|
  {
    if |s| == 0 then [] else [if s[0] == from then to else s[0]] + ReplaceChar(s[1..], from, to)
  }

  /** `s.slice(1..-1)`: all but the first character; nil for the empty string. */
  function DropFirst(s: string): (r: Option<string>)
    ensures r.Some? <==> |s| >= 1
    ensures r.Some? ==> |r.value| == |s| - 1 && forall k :: 0 <= k < |r.value| ==> r.value[k] == s[k + 1]
  {
    if |s| == 0 then None else Some(s[1..])
  }

  /** The directory name for a post: its id with every '/' turned into '-', less the
      first character. */
  function SrcDir(id: string): (r: Option<string>)
    ensures r.Some? <==> id != ""
    ensures r.Some? ==> |r.value| == |id| - 1 && '/' !in r.value
  {
    var r := DropFirst(ReplaceChar(id, '/', '-'));
    assert r.Some? ==> forall k :: 0 <= k < |r.value| ==> r.value[k] != '/';
    r
  }

  /** The anchor the tag renders to: the fixed text, linked to `link`. */
  function Anchor(link: string): string
  {
    "<a href=\"" + link + "\">" + LinkText + "</a>"
  }

  /** `AccompanyingSrcLinkTag#render`. Appending nil raises, so an empty id is an error. */
  function Render(post: Post): (r: Result<string>)
    ensures r.Err? <==> post.id == ""
    ensures r.Err? ==> r.error == NilConversion
  {
    match SrcDir(post.id)
    case None => Err(NilConversion)
    case Some(dir) =>
      Ok(Anchor(TreeUrl + dir))
  }

  // Properties

  /** For an id that starts with '/' and has no '-', turning the dashes of the
      directory name back into separators and restoring the leading '/' gives the id
      back: no two such posts share a directory. */
  lemma SrcDirRoundTrip(id: string)
    requires |id| >= 1 && id[0] == '/' && '-' !in id
    ensures "/" + ReplaceChar(SrcDir(id).value, '-', '/') == id
  {
    var d := SrcDir(id).value;
    var back := "/" + ReplaceChar(d, '-', '/');
    forall k | 0 <= k < |id|
      ensures back[k] == id[k]
    {
      if k > 0 {
        assert d[k - 1] == ReplaceChar(id, '/', '-')[k];
      }
    }
  }

  lemma {:induction false} ReplaceCharAppend(a: string, b: string, from: char, to: char)
    ensures ReplaceChar(a + b, from, to) == ReplaceChar(a, from, to) + ReplaceChar(b, from, to)
    decreases |a|
  {
    if |a| == 0 {
      assert a + b == b;
    } else {
      assert (a + b)[1..] == a[1..] + b;
      ReplaceCharAppend(a[1..], b, from, to);
    }
  }

  lemma {:induction false} ReplaceCharAbsent(a: string, from: char, to: char)
    requires from !in a
    ensures ReplaceChar(a, from, to) == a
    decreases |a|
  {
    if |a| > 0 {
      ReplaceCharAbsent(a[1..], from, to);
      assert [a[0]] + a[1..] == a;
    }
  }

  /** A component followed by a separator becomes the component followed by '-'. */
  lemma DashAfter(part: string, rest: string)
    requires '/' !in part
    ensures ReplaceChar(part + ("/" + rest), '/', '-') == part + ("-" + ReplaceChar(rest, '/', '-'))
  {
    ReplaceCharAppend(part, "/" + rest, '/', '-');
    ReplaceCharAppend("/", rest, '/', '-');
    ReplaceCharAbsent(part, '/', '-');
  }

  /** A Jekyll post id `/year/month/day/title` gives the directory name
      `year-month-day-title`. */
  lemma SrcDirOfDatedId(y: string, m: string, d: string, title: string)
    requires '/' !in y && '/' !in m && '/' !in d && '/' !in title
    ensures SrcDir("/" + (y + ("/" + (m + ("/" + (d + ("/" + title)))))))
      == Some(y + ("-" + (m + ("-" + (d + ("-" + title))))))
  {
    var t1 := d + ("/" + title);
    var t2 := m + ("/" + t1);
    var t3 := y + ("/" + t2);
    ReplaceCharAbsent(title, '/', '-');
    DashAfter(d, title);
    DashAfter(m, t1);
    DashAfter(y, t2);
    ReplaceCharAppend("/", t3, '/', '-');
    var r := ReplaceChar(t3, '/', '-');
    assert ("-" + r)[1..] == r;
  }

  /** The tag renders to an anchor around the fixed text, pointing at the directory. */
  lemma RenderLink(post: Post)
    requires post.id != ""
    ensures Render(post) == Ok(Anchor(TreeUrl + SrcDir(post.id).value))
  {
  }
}
