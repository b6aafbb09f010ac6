/** The `chart` tag: an SVG chart from the post's asset directory, shown as an `<img>`
    inside a `<figure>` whose top padding keeps the chart's aspect ratio. */
module Chart {
  import opened Text
  import opened Numbers
  import opened Paths
  import opened SiteModel
  import opened Assets
  import opened Seqs

  /** The library calls `render` makes, as parameters: the attributes of the root
      `svg` element Nokogiri finds in a file's contents (None when there is none), and
      the text of the float `100 / (w.to_f / h.to_f)` for the height and width texts
      (a missing attribute reads as 0.0, as the empty text does). */
  datatype Services = Services(
    svgRoot: string -> Option<map<string, string>>,
    aspectRatio: (string, string) -> string)

  /** A line matched by `^fig-(?<figno>\d{2}).*\.svg$`: "fig-", two ASCII digits, then
      anything up to a final ".svg". */
  predicate IsFigLine(line: string) {
    && |line| >= 10
    && line[..4] == "fig-"
    && IsDigit(line[4]) && IsDigit(line[5])
    && line[|line| - 4..] == ".svg"
  }

  /** The first matching line. `^` and `$` match at line breaks and `.` never crosses
      one, so the leftmost match lies within the first line that matches as a whole. */
  function FirstFigLine(lines: seq<string>): (r: Option<string>)
    ensures r.Some? ==> r.value in lines && IsFigLine(r.value)
    ensures r.None? ==> forall k :: 0 <= k < |lines| ==> !IsFigLine(lines[k])
    decreases |lines|
  {
    if |lines| == 0 then None
    else if IsFigLine(lines[0]) then Some(lines[0])
    else FirstFigLine(lines[1..])
  }

  /** `match ? match["figno"] : "00"`. */
  function ChartFigno(input: string): (r: string)
    ensures |r| == 2 && AllDigits(r)
  {
    match FirstFigLine(Split(input, '\n'))
    case None => "00"
    case Some(line) => line[4..6]
  }

  /** An attribute that may be nil, as string interpolation shows it. */
  function AttrText(v: Option<string>): string
  {
    match v
    case None => ""
    case Some(s) => s
  }

  /** `xml.xpath("/xmlns:svg")[0][attribute]` on a root's attributes. */
  function Attr(attrs: map<string, string>, key: string): Option<string>
  {
    if key in attrs then Some(attrs[key]) else None
  }

  const FigureOpen := "<figure class=\"fig-chart\""
  const FigureClose := "</figure>"

  /** What the figure holds after `<figure class="fig-chart"`: the style carrying the
      aspect ratio, then the `<img>`. Its `src` is the post's URL followed directly by
      the name, with no separator between them. */
  function FigureBody(aspect: string, url: string, name: string, alt: string, h: string, w: string): string
  {
    " style=\"padding-top: " + aspect + "%;\">"
    + "<img src=\"." + url + name + "\" alt=\"" + alt
    + "\" height=\"" + h + "\" width=\"" + w + "\" />"
  }

  /** The markup the tag renders to: the figure's opening, its body, its closing tag. */
  function FigureMarkup(aspect: string, url: string, name: string, alt: string, h: string, w: string): (r: string)
    ensures StartsWith(r, FigureOpen)
    ensures |FigureClose| <= |r| && r[|r| - |FigureClose|..] == FigureClose
  {
    Enclose(FigureOpen, FigureBody(aspect, url, name, alt, h, w), FigureClose)
  }

  /** The chart file named by the tag argument, inside the post's asset directory. */
  function ChartFile(post: Post, input: string): string
  {
    Join(SourcePath(post), input)
  }

  /** The height and width the chart's root element gives, when the file exists;
      nil for both when it does not. */
  function Dimensions(site: Site, file: string, env: Services): (r: Result<(Option<string>, Option<string>)>)
    ensures r.Err? <==> Exists(site, file) && (file in site.dirs || env.svgRoot(site.files[file]).None?)
    ensures r.Ok? && (r.value.0.Some? || r.value.1.Some?) ==> file in site.files && file !in site.dirs
  {
    if !Exists(site, file) then Ok((None, None))
    else
      match ReadFile(site, file)
      case Err(e) => Err(e)
      case Ok(contents) =>
        match env.svgRoot(contents)
        case None => Err(NoSvgRoot(file))
        case Some(attrs) => Ok((Attr(attrs, "height"), Attr(attrs, "width")))
  }

  /** `ChartTag#render` for the stripped tag argument `input` inside `post`. */
  function Render(input: string, post: Post, site: Site, env: Services): (r: Result<string>)
    ensures r.Ok? ==> StartsWith(r.value, FigureOpen)
    ensures r.Ok? ==> |FigureClose| <= |r.value| && r.value[|r.value| - |FigureClose|..] == FigureClose
    ensures !Exists(site, ChartFile(post, input)) ==> r.Ok?
  {
    var figno := ChartFigno(input);
    var file := ChartFile(post, input);
    var name := Basename(file);
    match Dimensions(site, file, env)
    case Err(e) => Err(e)
    case Ok((h, w)) =>
      var ht, wt := AttrText(h), AttrText(w);
      Ok(FigureMarkup(env.aspectRatio(ht, wt), post.url, name, FigureLabel(figno), ht, wt))
  }

  /** `ChartTag#initialize` followed by `render`: the tag argument is stripped first. */
  function RenderTag(rawInput: string, post: Post, site: Site, env: Services): Result<string>
  {
    Render(Strip(rawInput), post, site, env)
  }

  // Properties

  /** For a one-line argument the figure number is the two digits after "fig-" exactly
      when the argument matches, and "00" otherwise. */
  lemma ChartFignoOfLine(input: string)
    requires '\n' !in input
    ensures IsFigLine(input) ==> ChartFigno(input) == input[4..6]
    ensures !IsFigLine(input) ==> ChartFigno(input) == "00"
  {
    SplitNoSep(input, '\n');
  }

  /** Lines before the first matching one play no part. */
  lemma {:induction false} FirstFigLineSkips(lines: seq<string>, k: int)
    requires 0 <= k < |lines| && IsFigLine(lines[k])
    requires forall j :: 0 <= j < k ==> !IsFigLine(lines[j])
    ensures FirstFigLine(lines) == Some(lines[k])
    decreases k
  {
    if k > 0 {
      FirstFigLineSkips(lines[1..], k - 1);
    }
  }

  /** An argument none of whose lines matches has the figure number "00". */
  lemma ChartFignoDefault(input: string)
    requires forall k :: 0 <= k < |Split(input, '\n')| ==> !IsFigLine(Split(input, '\n')[k])
    ensures ChartFigno(input) == "00"
  {
  }

  /** An argument none of whose lines matches is labelled "Figure 0". */
  lemma ChartLabelDefault(input: string)
    requires forall k :: 0 <= k < |Split(input, '\n')| ==> !IsFigLine(Split(input, '\n')[k])
    ensures FigureLabel(ChartFigno(input)) == "Figure 0"
  {
    var figno := ChartFigno(input);
    ChartFignoDefault(input);
    FigureLabelOfLeadingZero(figno);
    assert "Figure " + [figno[1]] == "Figure 0";
  }

  /** The figure number comes from the first matching line. */
  lemma ChartFignoOfFirstMatch(input: string, k: int)
    requires var lines := Split(input, '\n');
      && 0 <= k < |lines| && IsFigLine(lines[k])
      && forall j :: 0 <= j < k ==> !IsFigLine(lines[j])
    ensures ChartFigno(input) == Split(input, '\n')[k][4..6]
  {
    FirstFigLineSkips(Split(input, '\n'), k);
  }

  /** An argument whose first matching line is line `k` is labelled with the value of
      that line's two digits. */
  lemma ChartLabelOfMatch(input: string, lines: seq<string>, k: int)
    requires lines == Split(input, '\n')
    requires 0 <= k < |lines| && IsFigLine(lines[k])
    requires forall j :: 0 <= j < k ==> !IsFigLine(lines[j])
    ensures FigureLabel(ChartFigno(input)) ==
      "Figure " + NatToS(10 * DigitValue(lines[k][4]) + DigitValue(lines[k][5]))
  {
    var figno, line := ChartFigno(input), lines[k];
    ChartFignoOfFirstMatch(input, k);
    assert figno[0] == line[4] && figno[1] == line[5];
    FigureLabelOfTwoDigits(figno);
  }

  /** A plain file name is looked up as `<asset dir>/<name>` and shown under that name. */
  lemma ChartFileOfName(post: Post, input: string)
    requires input != "" && '/' !in input
    requires var dir := SourcePath(post); dir[|dir| - 1] != '/'
    ensures ChartFile(post, input) == SourcePath(post) + "/" + input
    ensures Basename(ChartFile(post, input)) == input
  {
    JoinPlain(SourcePath(post), input);
    BasenameOfJoin(SourcePath(post), input);
  }

  /** A missing chart file leaves height and width nil: both attributes are empty. */
  lemma RenderWithoutFile(input: string, post: Post, site: Site, env: Services)
    requires !Exists(site, ChartFile(post, input))
    ensures Render(input, post, site, env) ==
      Ok(FigureMarkup(env.aspectRatio("", ""), post.url, Basename(ChartFile(post, input)), FigureLabel(ChartFigno(input)), "", ""))
  {
  }

  /** Height and width are copied from the chart's root element as they are written;
      an attribute the element lacks is nil and renders as the empty text. */
  lemma RenderCopiesDimensions(input: string, post: Post, site: Site, env: Services, attrs: map<string, string>)
    requires ChartFile(post, input) in site.files && ChartFile(post, input) !in site.dirs
    requires env.svgRoot(site.files[ChartFile(post, input)]) == Some(attrs)
    ensures var h, w := AttrText(Attr(attrs, "height")), AttrText(Attr(attrs, "width"));
      Render(input, post, site, env) ==
        Ok(FigureMarkup(env.aspectRatio(h, w), post.url, Basename(ChartFile(post, input)), FigureLabel(ChartFigno(input)), h, w))
  {
  }

  /** A chart file without a root `svg` element makes the tag raise. */
  lemma RenderWithoutRoot(input: string, post: Post, site: Site, env: Services)
    requires ChartFile(post, input) in site.files && ChartFile(post, input) !in site.dirs
    requires env.svgRoot(site.files[ChartFile(post, input)]).None?
    ensures Render(input, post, site, env) == Err(NoSvgRoot(ChartFile(post, input)))
  {
  }

  /** The tag argument is stripped before use: whitespace around it changes nothing. */
  lemma RenderTagIgnoresPadding(before: string, input: string, after: string, post: Post, site: Site, env: Services)
    requires AllStripSpace(before) && AllStripSpace(after)
    ensures RenderTag(before + input + after, post, site, env) == RenderTag(input, post, site, env)
  {
    StripIgnoresPadding(before, input, after);
  }
}
