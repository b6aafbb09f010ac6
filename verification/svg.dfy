/** The `inline_svg` tag: an SVG from the inline directory, pasted into the page with
    its XML declaration and its `id` attributes removed by
    `gsub(/\<\?xml.+\?\>|id\=\".*?\"/, "")`. */
module InlineSvg {
  import opened Text
  import opened SiteModel
  import opened Assets

  const XmlOpen := "<?xml"
  const XmlClose := "?>"
  const IdOpen := "id=\""

  /** The end of the line `p` is on: the first line break at or after `p`, or the end
      of the text. `.` stops there. */
  function LineEnd(s: string, p: int): (e: int)
    requires 0 <= p <= |s|
    ensures p <= e <= |s|
    ensures e == |s| || s[e] == '\n'
    ensures forall k :: p <= k < e ==> s[k] != '\n'
    decreases |s| - p
  {
    if p == |s| || s[p] == '\n' then p else LineEnd(s, p + 1)
  }

  /** A pattern without line breaks that occurs at `p` lies on `p`'s line. */
  lemma LineEndAfter(s: string, p: int, pat: string)
    requires OccursAt(s, p, pat) && '\n' !in pat
    ensures LineEnd(s, p) >= p + |pat|
  {
    forall k | p <= k < p + |pat|
      ensures s[k] != '\n'
    {
      assert s[k] == s[p..p + |pat|][k - p];
    }
  }

  /** The last `?>` lying wholly in `s[lo..e]`. */
  function LastClose(s: string, lo: int, e: int): (r: Option<int>)
    requires 0 <= lo && e <= |s|
    ensures r.Some? ==> lo <= r.value && OccursAt(s, r.value, XmlClose) && r.value + 2 <= e
    ensures r.Some? ==> forall k :: r.value < k && k + 2 <= e ==> !OccursAt(s, k, XmlClose)
    ensures r.None? ==> forall k :: lo <= k && k + 2 <= e ==> !OccursAt(s, k, XmlClose)
    decreases e - lo
  {
    if e - lo < 2 then None
    else if s[e - 2..e] == XmlClose then Some(e - 2)
    else
      var r := LastClose(s, lo, e - 1);
      assert forall k :: k + 2 == e ==> !OccursAt(s, k, XmlClose);
      r
  }

  /** The first `"` in `s[lo..e]`. */
  function FirstQuote(s: string, lo: int, e: int): (r: Option<int>)
    requires 0 <= lo <= e <= |s|
    ensures r.Some? ==> lo <= r.value < e && s[r.value] == '"'
    ensures r.Some? ==> forall k :: lo <= k < r.value ==> s[k] != '"'
    ensures r.None? ==> forall k :: lo <= k < e ==> s[k] != '"'
    decreases e - lo
  {
    if lo == e then None
    else if s[lo] == '"' then Some(lo)
    else FirstQuote(s, lo + 1, e)
  }

  /** Where the first alternative, `\<\?xml.+\?\>`, ends when it matches at `p`: `.+`
      is greedy and stays on the line, so the match runs to the last `?>` of the line
      that leaves at least one character after "<?xml". */
  function XmlDeclEnd(s: string, p: int): (r: Option<int>)
    requires 0 <= p <= |s|
    ensures r.Some? ==> && p + 8 <= r.value <= |s|
                        && OccursAt(s, p, XmlOpen) && OccursAt(s, r.value - 2, XmlClose)
                        && (forall k :: p <= k < r.value ==> s[k] != '\n')
    ensures r.Some? ==> forall k :: r.value - 2 < k && k + 2 <= LineEnd(s, p) ==> !OccursAt(s, k, XmlClose)
    ensures OccursAt(s, p, XmlOpen) && r.None? ==>
      forall k :: p + 6 <= k && k + 2 <= LineEnd(s, p) ==> !OccursAt(s, k, XmlClose)
  {
    if !OccursAt(s, p, XmlOpen) then None
    else
      match LastClose(s, p + 6, LineEnd(s, p))
      case None => None
      case Some(k) => Some(k + 2)
  }

  /** Where the second alternative, `id\=\".*?\"`, ends when it matches at `p`: `.*?`
      is lazy, so the match stops at the first `"` after the opening one on that line. */
  function IdAttrEnd(s: string, p: int): (r: Option<int>)
    requires 0 <= p <= |s|
    ensures r.Some? ==> && p + 5 <= r.value <= |s|
                        && OccursAt(s, p, IdOpen) && s[r.value - 1] == '"'
                        && (forall k :: p + 4 <= k < r.value - 1 ==> s[k] != '"' && s[k] != '\n')
    ensures OccursAt(s, p, IdOpen) && r.None? ==> forall k :: p + 4 <= k < LineEnd(s, p) ==> s[k] != '"'
  {
    if !OccursAt(s, p, IdOpen) then None
    else
      LineEndAfter(s, p, IdOpen);
      match FirstQuote(s, p + 4, LineEnd(s, p))
      case None => None
      case Some(q) => Some(q + 1)
  }

  /** The end of the match starting at `p`, trying the alternatives in order. */
  function MatchEnd(s: string, p: int): (r: Option<int>)
    requires 0 <= p <= |s|
    ensures r.Some? ==> p < r.value <= |s|
  {
    var x := XmlDeclEnd(s, p);
    if x.Some? then x else IdAttrEnd(s, p)
  }

  /** The `gsub` from `p` on: each match, scanned left to right without overlap, is
      deleted; every other character is kept. */
  function StripFrom(s: string, p: int): (r: string)
    requires 0 <= p <= |s|
    ensures IsSubsequence(r, s[p..])
    decreases |s| - p
  {
    if p == |s| then []
    else
      match MatchEnd(s, p)
      case Some(e) =>
        var r := StripFrom(s, e);
        assert s[p..][e - p..] == s[e..];
        SubsequenceOfSuffix(r, s[p..], e - p);
        r
      case None =>
        var r := StripFrom(s, p + 1);
        SubsequenceCons(s[p], r, s[p + 1..]);
        assert [s[p]] + s[p + 1..] == s[p..];
        [s[p]] + r
  }

  /** The rewrite applied to the file's contents. */
  function StripMarkup(data: string): (r: string)
    ensures IsSubsequence(r, data)
    ensures |r| <= |data|
  {
    var r := StripFrom(data, 0);
    assert data[0..] == data;
    SubsequenceShorter(r, data);
    r
  }

  /** `InlineSvgTag#render` for the stripped tag argument `name`: read the file of that
      name from the inline directory and rewrite it. */
  function Render(name: string, site: Site): (r: Result<string>)
    ensures r.Ok? <==> ReadFile(site, InlineFile(name)).Ok?
    ensures r.Ok? ==> IsSubsequence(r.value, ReadFile(site, InlineFile(name)).value)
  {
    match ReadFile(site, InlineFile(name))
    case Err(e) => Err(e)
    case Ok(data) => Ok(StripMarkup(data))
  }

  /** `InlineSvgTag#initialize` followed by `render`: the tag argument is stripped first. */
  function RenderTag(rawInput: string, site: Site): Result<string>
  {
    Render(Strip(rawInput), site)
  }

  // Properties

  /** Neither pattern occurs anywhere. */
  predicate NoMarkup(s: string) {
    forall j :: 0 <= j < |s| ==> !OccursAt(s, j, XmlOpen) && !OccursAt(s, j, IdOpen)
  }

  /** Text in which neither "<?xml" nor `id="` starts at or after `p` passes through
      unchanged from `p` on. */
  lemma {:induction false} StripFromUnchanged(s: string, p: int)
    requires 0 <= p <= |s|
    requires forall j :: p <= j < |s| ==> !OccursAt(s, j, XmlOpen) && !OccursAt(s, j, IdOpen)
    ensures StripFrom(s, p) == s[p..]
    decreases |s| - p
  {
    if p < |s| {
      assert MatchEnd(s, p).None?;
      StripFromUnchanged(s, p + 1);
      assert [s[p]] + s[p + 1..] == s[p..];
    }
  }

  /** Text in which neither "<?xml" nor `id="` occurs passes through unchanged. */
  lemma StripMarkupUnchanged(s: string)
    requires NoMarkup(s)
    ensures StripMarkup(s) == s
  {
    StripFromUnchanged(s, 0);
  }

  /** The second alternative at `p` ends just after the first `"` on the line. */
  lemma IdMatchEnd(s: string, p: int, q: int)
    requires OccursAt(s, p, IdOpen)
    requires p + 4 <= q < |s| && s[q] == '"'
    requires forall k :: p + 4 <= k < q ==> s[k] != '"' && s[k] != '\n'
    ensures MatchEnd(s, p) == Some(q + 1)
  {
    assert !OccursAt(s, p, XmlOpen) by {
      assert s[p] == s[p..p + 4][0];
    }
    LineEndAfter(s, p, IdOpen);
    var e := LineEnd(s, p);
    assert q < e;
    assert FirstQuote(s, p + 4, e) == Some(q) by {
      var r := FirstQuote(s, p + 4, e);
      assert r.Some? && r.value <= q;
    }
  }

  /** A match from `p` to `e` is deleted as a whole. */
  lemma StripFromSkipsMatch(s: string, p: int, e: int)
    requires 0 <= p < |s|
    requires MatchEnd(s, p) == Some(e)
    ensures StripFrom(s, p) == StripFrom(s, e)
  {
  }

  /** An `id="` is deleted together with everything up to and including the first
      `"` after it, when that quote is on the same line. */
  lemma StripFromSkipsId(s: string, p: int, q: int)
    requires OccursAt(s, p, IdOpen)
    requires p + 4 <= q < |s| && s[q] == '"'
    requires forall k :: p + 4 <= k < q ==> s[k] != '"' && s[k] != '\n'
    ensures StripFrom(s, p) == StripFrom(s, q + 1)
  {
    IdMatchEnd(s, p, q);
    StripFromSkipsMatch(s, p, q + 1);
  }

  /** A declaration that is the last `?>` on its line is deleted as a whole. */
  lemma StripFromSkipsDecl(s: string, p: int, e: int)
    requires 0 <= p && p + 8 <= e <= |s|
    requires e == LineEnd(s, p)
    requires OccursAt(s, p, XmlOpen) && OccursAt(s, e - 2, XmlClose)
    ensures StripFrom(s, p) == StripFrom(s, e)
  {
  }

  /** A character where neither pattern starts is kept. */
  lemma StripFromKeeps(s: string, p: int)
    requires 0 <= p < |s|
    requires !OccursAt(s, p, XmlOpen) && !OccursAt(s, p, IdOpen)
    ensures StripFrom(s, p) == [s[p]] + StripFrom(s, p + 1)
  {
  }

  /** The tag argument is stripped before use: whitespace around it changes nothing. */
  lemma RenderTagIgnoresPadding(before: string, input: string, after: string, site: Site)
    requires AllStripSpace(before) && AllStripSpace(after)
    ensures RenderTag(before + input + after, site) == RenderTag(input, site)
  {
    StripIgnoresPadding(before, input, after);
  }
}
