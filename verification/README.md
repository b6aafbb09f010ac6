# Jekyll plugins of jkillingsworth.com, modelled in Dafny

This project models the Ruby plugins that build the figures and links of the
jkillingsworth.com blog:

- the `latex` block. It strips and URI-encodes a LaTeX body and names the SVG
  after the body's SHA-1 (`fig-<figno>-latex-<first 8 hex digits>.svg`). On a
  miss it fetches the SVG from a web rendering service, caches it in the post's
  asset directory and registers it as a static file. It renders an `<img>` of it.
- the `chart` tag. It puts an SVG chart from the post's asset directory in a
  `<figure>`. The top padding keeps the aspect ratio, and height and width are
  copied from the chart's root element.
- the `inline_svg` tag. It pastes an SVG from `_assets/inline` into the page
  with its XML declaration and `id` attributes removed.
- the `hyphenate_and_fixup` filter, with its two clean-up rewrites after
  hyphenation.
- the `accompanying_src_link` tag. It links to the source directory named
  after the post's id.
- the `Assets` generator. It decides where assets live and registers the
  static tree and each post's assets as static files.

The site is an immutable record: directories, file contents, posts and the
static-file registry. Every operation is a pure function of it, or a method
whose loops are proved against a reference function. The library calls the
plugins make are parameters:

- `URI.encode`, `Digest::SHA1.hexdigest` and reading a URL (`Latex.Services`);
- Nokogiri's root element and the float aspect ratio (`Chart.Services`);
- the `hyphenate` filter;
- `Dir[pattern]`.

The Ruby core behaviour the plugins depend on is written out:

- `String#strip`, `String#to_i`, `Integer#to_s`;
- `File.join`, `File.basename`, `Pathname#each_filename`;
- the regular expressions: the four `gsub` rewrites (`_plugins/assets.rb:22`,
  written again at `_plugins/latex.rb:16`; `_plugins/svg.rb:16`;
  `_plugins/hyphenation.rb:9` and `:10`) and the `String#match` of
  `_plugins/chart.rb:12`, with Ruby's rules:
  - `.` does not match a line break;
  - `^` and `$` (used only by the chart match) match at line breaks;
  - greedy `.+` and lazy `.*?` are kept apart.

Modules:

| module | file | contents |
|---|---|---|
| `Seqs` | seqs.dfy | generic sequence lemmas, `MapWith`, `Concat` |
| `Text` | text.dfy | `strip`, split/join, subsequence, occurrences |
| `Numbers` | numbers.dfy | `to_i`, `to_s`, the "Figure N" label |
| `Paths` | paths.dfy | `File.join`, `File.basename`, `each_filename`, parent directory |
| `SiteModel` | site.dfy | posts, asset files, the site, file-system operations, errors |
| `Assets` | assets.dfy | `AssetFile#path`, `source_path`, `inline_file`, static entries |
| `Generate` | generate.dfy | `Assets#generate` |
| `Latex` | latex.dfy | `LatexBlock` |
| `Chart` | chart.dfy | `ChartTag` |
| `InlineSvg` | svg.dfy | `InlineSvgTag` |
| `Hyphenation` | hyphenation.dfy | `HyphenationFilter` |
| `SrcLink` | src_link.dfy | `AccompanyingSrcLinkTag` |

How the `latex` block behaves, as the plugin code is written:

- The fingerprint is the first eight hex digits of the SHA-1 of the URI-encoded
  body.
- The body is stripped as a whole, not line by line.
- The SVG comes from an HTTP request to a web rendering service.
- A failed request raises after the directory has been created. Nothing is
  written or registered.
- No pixel dimensions are extracted for LaTeX figures. The chart tag copies the
  `height` and `width` texts as they are written.
- The file is written with a plain `File.write`.

## Model

| member | source | states |
|---|---|---|
| `Assets.AssetPathIsBaseSlashName` | _plugins/assets.rb:6-8 | An asset file's source path is its base, a separator, then its name (for a base without a trailing '/' and a relative name). |
| `Assets.AssetPath` | _plugins/assets.rb:6-8 | An asset file's source path ends with its name. |
| `Assets.PostStemWithoutMd` | _plugins/assets.rb:22 | A one-line post path without ".md" is left unchanged by the stem rewrite. |
| `Assets.PostStemOfLine` | _plugins/assets.rb:22 | A one-line path is rewritten as that single line; no match crosses a line break. |
| `Assets.StemOfPostLine` | _plugins/assets.rb:22 | The line `dir/stem.md` is rewritten to `stem`: the greedy groups pick the last '/' before the last ".md". |
| `Assets.StemOfLine` | _plugins/assets.rb:22 | Models the rewrite of one line: the text between the last '/' before the last ".md" and that ".md", then whatever follows it. `StemOfPostLine` and `PostStemWithoutMd` state its results. |
| `Assets.PostStem` | _plugins/assets.rb:22 | Models the whole `gsub` as the line rewrite applied to each line. `PostStemOfLine` reduces it to one line. |
| `Assets.StemLinesAt` | _plugins/assets.rb:22 | Line k of the rewrite is the rewrite of line k. |
| `Assets.SourcePathOfPostFile` | _plugins/assets.rb:21-23 | A post at `dir/stem.md` has the asset directory `_assets/stem`. |
| `Assets.SourcePath` | _plugins/assets.rb:21-23 | A post's asset directory always lies inside `_assets`. |
| `Assets.InlineFile` | _plugins/assets.rb:25-27 | The inline file is `_assets/inline/` followed by the name, or `_assets/inline` followed by the name when the name starts with '/'. |
| `Assets.StaticBase` | _plugins/assets.rb:30 | The static tree is at `_assets/static`. |
| `Assets.StaticBaseDepth` | _plugins/assets.rb:32 | The static base has the two components `_assets` and `static`, so two components are dropped from each listed file. |
| `Assets.StaticEntry` | _plugins/assets.rb:35-36 | Models one static entry: the file's components after the base's, joined with '/'. `StaticEntryRoundTrip` states that its path is the listed file. |
| `Assets.StaticEntries` | _plugins/assets.rb:33-36 | Models the static half of `generate` as one entry per regular file. `RegularFilesMembers` and `Generate.RegisterStatic` state its contents and order. |
| `Assets.RegularFiles` | _plugins/assets.rb:33-34 | Models `next if File.directory? file`: the listed paths that are not directories, in listing order. `RegularFilesMembers` and `RegularFilesOfFiles` state its contents and order. |
| `Assets.EachFilenameOfPlainPath` | _plugins/assets.rb:35 | The components of `a/b/rel` are `a`, `b`, then the components of `rel`. |
| `Assets.StaticEntryRoundTrip` | _plugins/assets.rb:30-36 | A static file at `_assets/static/rel` is registered under the name `rel`, and the entry's path is the file it came from. |
| `Assets.RegularFilesMembers` | _plugins/assets.rb:33-34 | A listed path is kept exactly when it is not a directory. |
| `Assets.RegularFilesOfFiles` | _plugins/assets.rb:33-34 | A listing without directories is kept whole and in order. |
| `Generate.PostFileEntriesAt` | _plugins/assets.rb:41-44 | A post's k-th entry is its k-th listed file: base is the source path, destination is the post URL, name is the basename. |
| `Generate.PostFileEntries` | _plugins/assets.rb:41-44 | Models one post's registrations. `PostFileEntriesAt` states each entry. |
| `Generate.PostAssetEntries` | _plugins/assets.rb:39-44 | Models one post's registrations: the files listed under its source path, each copied from that path to the post URL under its basename. `PostFileEntriesAt` states each entry. |
| `Generate.PostEntries` | _plugins/assets.rb:38-45 | Models the posts half of `generate`: each post's entries, post after post. `PostEntriesSnoc`, `PostEntriesInPostOrder` and `Generate.RegisterPosts` state its contents and order. |
| `Generate.PostEntriesSnoc` | _plugins/assets.rb:38-45 | The entries of the first p+1 posts are those of the first p, then post p's. |
| `Generate.PostEntriesInPostOrder` | _plugins/assets.rb:38-45 | Each post's entries form one contiguous block, between those of earlier and later posts. |
| `Generate.StaticEntriesSnoc` | _plugins/assets.rb:33-37 | One more listed path adds one entry, or none when the path is a directory. |
| `Generate.RegisterStatic` | _plugins/assets.rb:33-37 | The loop appends exactly the reference entries of the static tree's regular files, in listing order. |
| `Generate.RegisterPostFiles` | _plugins/assets.rb:41-44 | The loop appends one entry per listed file of a post, in listing order. |
| `Generate.RegisterPosts` | _plugins/assets.rb:38-45 | The loop appends each post's entries, in post order. |
| `Generate.GenerateAssets` | _plugins/assets.rb:29-46 | Only the registry changes: the old entries, then the static tree's, then the posts'. |
| `Latex.NewBlock` | _plugins/latex.rb:5-8 | The figure number is the one slice of the argument that has only whitespace around it and none at its ends. |
| `Latex.Fingerprint` | _plugins/latex.rb:12-17 | The name's digest part is eight lower-case hex digits, the prefix of the SHA-1 of the encoded stripped body. |
| `Latex.EncodedBody` | _plugins/latex.rb:12 | Models `URI.encode(super.strip)`, with the encoder a parameter. `FingerprintIgnoresPadding` states that padding is stripped before encoding, and `Latex.Render` that the one request is for this text. |
| `Latex.ArtifactName` | _plugins/latex.rb:17 | The file name starts with "fig-", ends with ".svg", and is 15 characters longer than the figure number and fingerprint together. `ArtifactNameInjective` states that it determines both. |
| `Latex.ArtifactFile` | _plugins/latex.rb:16-17 | Models the artifact path: the name joined onto the asset directory. `ArtifactFileName` states that its basename is the name. |
| `Latex.ArtifactDir` | _plugins/latex.rb:16 | The block's directory is the asset generator's source path for the post. |
| `Latex.EnsureDir` | _plugins/latex.rb:20-22 | An existing directory is left alone. Otherwise it is created, adding only that directory. It fails exactly when a file is in the way or the parent is missing. |
| `Latex.Fill` | _plugins/latex.rb:24-31 | Exactly one request is made. A fetch or write failure raises and leaves the site as it was. Otherwise the reply is written to the file, the entry is appended to the registry, and nothing else changes. |
| `Latex.Cached` | _plugins/latex.rb:20-33 | Only the block's directory may be added. A success returns the markup, and the directory and file exist. At most one request is made, for the given URL. Only the artifact file may be written, and only with the reply. The registry keeps its entries and gains at most the artifact's. A failure writes and registers nothing. |
| `Latex.Render` | _plugins/latex.rb:10-34 | One render: only the artifact directory can be created, and it exists after a success. At most one request is made, for the encoded body. Only the artifact file can be written, and only with the reply. The registry gains at most the artifact's entry. A failure writes and registers nothing. A success returns the `<img>` of the artifact. |
| `Latex.RenderKeepsRegistry` | _plugins/latex.rb:29 | A render keeps every earlier registry entry in place and adds at most one. |
| `Latex.ImgMarkup` | _plugins/latex.rb:33 | The markup is one `<img>` element whose `src` starts with "."; `Latex.Render` gives it the figure label as its `alt` text. |
| `Latex.CachedTwice` | _plugins/latex.rb:20-31 | After a success, the cache step finds everything in place and changes nothing. |
| `Latex.ArtifactNameInjective` | _plugins/latex.rb:17 | Two artifact names are equal exactly when their figure numbers and fingerprints are equal. |
| `Latex.FingerprintIgnoresPadding` | _plugins/latex.rb:12-13 | Whitespace around the body does not change the fingerprint. |
| `Latex.ArtifactFileName` | _plugins/latex.rb:17-18 | For a figure number without '/', the basename of the artifact file is the artifact name. |
| `Latex.RenderCacheHit` | _plugins/latex.rb:20-33 | With the directory and file present: no request, no change to the site, and the `<img>` of the artifact. |
| `Latex.RenderCacheMiss` | _plugins/latex.rb:20-31 | On a miss, whether or not the asset directory exists yet: the directory is there afterwards, and one request is made for the encoded body. The reply is written to the artifact file. Exactly one entry is registered, and its path is that file. |
| `Latex.RenderTwice` | _plugins/latex.rb:10-34 | A second render after a successful one makes no request, leaves the site unchanged and returns the same markup. |
| `Chart.FirstFigLine` | _plugins/chart.rb:12 | The first line matching `fig-NN….svg`, or none when no line matches. |
| `Chart.IsFigLine` | _plugins/chart.rb:12 | Models the regex for one whole line: "fig-", two ASCII digits, then anything up to a final ".svg". `ChartFignoOfLine` and `FirstFigLine` state the match it gives. |
| `Chart.ChartFigno` | _plugins/chart.rb:12-13 | The figure number is always two ASCII digits. |
| `Chart.ChartFignoOfLine` | _plugins/chart.rb:12-13 | For a one-line argument: the two digits after "fig-" when it matches, "00" otherwise. |
| `Chart.FirstFigLineSkips` | _plugins/chart.rb:12 | Lines before the first match play no part. |
| `Chart.ChartFignoDefault` | _plugins/chart.rb:12-13 | An argument none of whose lines matches has figure number "00". |
| `Chart.ChartLabelDefault` | _plugins/chart.rb:32 | An argument none of whose lines matches is labelled "Figure 0". |
| `Chart.ChartFignoOfFirstMatch` | _plugins/chart.rb:12-13 | The figure number is the two digits of the first matching line. |
| `Chart.ChartLabelOfMatch` | _plugins/chart.rb:32 | An argument whose first matching line is `lines[k]` (of its lines split at newlines) is labelled with the decimal value of that line's two digits, without a leading zero. |
| `Chart.FigureMarkup` | _plugins/chart.rb:31-35 | The markup opens with `<figure class="fig-chart"` and ends with `</figure>`; `Chart.Render` gives the figure label as the `<img>` `alt` text. |
| `Chart.ChartFileOfName` | _plugins/chart.rb:15-17 | A plain name is looked up as `<asset dir>/<name>` and shown under that name. |
| `Chart.ChartFile` | _plugins/chart.rb:15-16 | Models the chart file as the tag argument joined onto the post's asset directory. `ChartFileOfName` states the plain-name case. |
| `Chart.Dimensions` | _plugins/chart.rb:19-27 | Reading the dimensions fails exactly when the file exists and is a directory or has no root `svg` element. A value is found only in a readable file. |
| `Chart.FigureBody` | _plugins/chart.rb:31-32 | Models the style and `<img>` between the figure tags. `RenderWithoutFile` and `RenderCopiesDimensions` state its height and width. |
| `Chart.Render` | _plugins/chart.rb:11-35 | A result is always one figure element. A missing chart file never makes the tag fail. |
| `Chart.RenderTag` | _plugins/chart.rb:6-9 | Models `initialize` then `render`: the argument is stripped first. `RenderTagIgnoresPadding` states that padding around it is ignored. |
| `Chart.RenderTagIgnoresPadding` | _plugins/chart.rb:6-9 | Whitespace around the tag argument does not change the output. |
| `Chart.RenderWithoutFile` | _plugins/chart.rb:23-32 | A missing file gives empty height and width, and the aspect ratio of two empty texts. |
| `Chart.RenderCopiesDimensions` | _plugins/chart.rb:23-32 | Height and width are copied verbatim from the root element; an attribute it lacks is nil and renders as the empty text. |
| `Chart.RenderWithoutRoot` | _plugins/chart.rb:19-25 | A file without a root `svg` element makes the tag raise. |
| `InlineSvg.LastClose` | _plugins/svg.rb:16 | The last `?>` in a range, or none: the end of a greedy `.+\?\>`. |
| `InlineSvg.FirstQuote` | _plugins/svg.rb:16 | The first `"` in a range, or none: the end of a lazy `.*?\"`. |
| `InlineSvg.XmlDeclEnd` | _plugins/svg.rb:16 | A declaration match starts with "<?xml", ends with a `?>`, stays on its line and runs to the last `?>` of that line. There is no match when no `?>` follows on the line. |
| `InlineSvg.IdAttrEnd` | _plugins/svg.rb:16 | An `id="` match ends at the first later quote on its line. There is no match when the line has no such quote. |
| `InlineSvg.MatchEnd` | _plugins/svg.rb:16 | Models the alternation: the declaration branch is tried first, then the `id` branch. A match is never empty and stays in the text, so the rewrite always advances. `IdMatchEnd` states where an `id` match ends. |
| `InlineSvg.StripFrom` | _plugins/svg.rb:16 | The rewrite only deletes characters. |
| `InlineSvg.StripMarkup` | _plugins/svg.rb:16 | The rewritten contents are a subsequence of the file and no longer than it. |
| `InlineSvg.Render` | _plugins/svg.rb:12-16 | For the stripped argument: the tag succeeds exactly when the inline file can be read. Its output is a subsequence of the contents. |
| `InlineSvg.RenderTag` | _plugins/svg.rb:7-10 | Models `initialize` then `render`: the argument is stripped first. `RenderTagIgnoresPadding` states that padding around it is ignored. |
| `InlineSvg.RenderTagIgnoresPadding` | _plugins/svg.rb:7-10 | Whitespace around the tag argument does not change the output. |
| `InlineSvg.StripFromUnchanged` | _plugins/svg.rb:16 | Text with no pattern from some position on passes unchanged from there. |
| `InlineSvg.StripMarkupUnchanged` | _plugins/svg.rb:16 | Contents with neither "<?xml" nor `id="` pass through unchanged. |
| `InlineSvg.IdMatchEnd` | _plugins/svg.rb:16 | An `id="` match ends just after the first following quote on its line. |
| `InlineSvg.StripFromSkipsMatch` | _plugins/svg.rb:16 | A match is deleted as a whole. |
| `InlineSvg.StripFromSkipsId` | _plugins/svg.rb:16 | An `id="…"` attribute closed on its line is deleted up to and including its closing quote. |
| `InlineSvg.StripFromSkipsDecl` | _plugins/svg.rb:16 | An XML declaration whose `?>` ends its line is deleted as a whole. |
| `InlineSvg.StripFromKeeps` | _plugins/svg.rb:16 | A character where neither pattern starts is kept. |
| `Hyphenation.FixHyphens` | _plugins/hyphenation.rb:9 | The hyphen rewrite only deletes characters. |
| `Hyphenation.FixAmpersands` | _plugins/hyphenation.rb:10 | The ampersand rewrite only deletes characters. |
| `Hyphenation.HyphenateAndFixup` | _plugins/hyphenation.rb:7-12 | The filter's output is a subsequence of the hyphenated text and no longer than it. |
| `Hyphenation.FixHyphensDeletesSoftHyphens` | _plugins/hyphenation.rb:9 | Apart from soft hyphens, the hyphen rewrite changes nothing. |
| `Hyphenation.FixHyphensUnchanged` | _plugins/hyphenation.rb:9 | Text without soft hyphens passes unchanged. |
| `Hyphenation.FixAmpersandsUnchanged` | _plugins/hyphenation.rb:10 | Text without "&amp;am" passes unchanged. |
| `Hyphenation.FixupUnchanged` | _plugins/hyphenation.rb:7-12 | When hyphenation adds no soft hyphens and no "&amp;am", the filter returns the hyphenated text. |
| `Hyphenation.FixHyphensNotIdempotent` | _plugins/hyphenation.rb:9 | One pass removes one soft hyphen per hard hyphen, so `-`, soft, soft keeps a soft hyphen. |
| `Hyphenation.FixAmpersandsOfAmpAmp` | _plugins/hyphenation.rb:10 | `&amp;amp;` becomes `&amp;`. |
| `Hyphenation.FixAmpersandsOfSoftAmp` | _plugins/hyphenation.rb:10 | `&amp;am`, soft hyphen, `p;` becomes `&amp;`. |
| `SrcLink.ReplaceChar` | _plugins/accompanying_src_link.rb:9 | The `gsub` keeps the length and replaces each `/` by `-`, position by position. |
| `SrcLink.DropFirst` | _plugins/accompanying_src_link.rb:9 | `slice(1..-1)` is nil exactly for the empty string; otherwise it is the text without its first character. |
| `SrcLink.SrcDir` | _plugins/accompanying_src_link.rb:9 | The directory name exists exactly when the id is not empty. It is one character shorter than the id and has no '/'. |
| `SrcLink.SrcDirRoundTrip` | _plugins/accompanying_src_link.rb:9 | For an id starting with '/' and without '-', the id can be recovered from the directory name. |
| `SrcLink.Anchor` | _plugins/accompanying_src_link.rb:11-15 | Models the anchor markup. `RenderLink` states the tag's output with it. |
| `SrcLink.SrcDirOfDatedId` | _plugins/accompanying_src_link.rb:9 | The id `/y/m/d/title` gives the directory `y-m-d-title`. |
| `SrcLink.Render` | _plugins/accompanying_src_link.rb:6-16 | The tag raises (nil conversion) exactly when the post id is empty. |
| `SrcLink.RenderLink` | _plugins/accompanying_src_link.rb:8-15 | For a non-empty id: an anchor around the fixed text, pointing at the tree URL followed by the directory name. |
| `Text.Strip` | _plugins/latex.rb:7 | `strip` keeps the one slice with only whitespace around it and none at its ends. |
| `Text.StripUnique` | _plugins/latex.rb:7 | Any slice with that property is the result of `strip`. |
| `Text.StripIgnoresPadding` | _plugins/latex.rb:12 | Whitespace added around a text does not change its `strip`. |
| `Numbers.NatToS` | _plugins/latex.rb:33 | The label's number is written in decimal with no leading zero, and reads back as the number. |
| `Numbers.ToI` | _plugins/latex.rb:33 | Models `String#to_i`: whitespace, an optional sign, an optional `0d` prefix, then the digits, with underscores. `ToIOfToS` and `ToIOfTwoDigits` state its results. |
| `Numbers.ToS` | _plugins/latex.rb:33 | Models `Integer#to_s`. `ToIOfToS` states that `to_i` reads it back. |
| `Numbers.FigureLabel` | _plugins/latex.rb:33 | Models the "Figure N" label. `FigureLabelOfTwoDigits` and `FigureLabelOfLeadingZero` state its value. |
| `Numbers.ToIOfToS` | _plugins/latex.rb:33 | `to_i` reads back every integer `to_s` writes. |
| `Numbers.FigureLabelOfTwoDigits` | _plugins/latex.rb:33 | A two-digit figure number is labelled with its decimal value. |
| `Numbers.FigureLabelOfLeadingZero` | _plugins/latex.rb:33 | A figure number `0d` is labelled "Figure d". |
| `Paths.JoinPlain` | _plugins/assets.rb:7 | `File.join` puts exactly one separator between parts that have none at the seam. |
| `Paths.Join` | _plugins/assets.rb:7 | Models `File.join` of two parts, with the separator rules at the seam. `JoinKeepsParts` and `JoinPlain` state its result. |
| `Paths.JoinKeepsParts` | _plugins/assets.rb:7 | `File.join` keeps the right part verbatim and the left part up to its trailing separators, with a separator at the seam. |
| `Paths.Basename` | _plugins/latex.rb:18 | A basename is "/" or has no separator, and is empty exactly for the empty path. |
| `Paths.EachFilename` | _plugins/assets.rb:32 | Models `Pathname#each_filename` as the non-empty components. `EachFilenameOfPlainPath` states its result. |
| `Paths.BasenameOfJoin` | _plugins/latex.rb:18 | The basename of a name joined onto a directory is that name. |
| `Paths.ParentOfJoin` | _plugins/latex.rb:21 | An entry joined onto a directory is created in that directory. |

## Left out

- The `print` progress messages of the `latex` block are not modelled. They affect no state.
- `URI.encode`, `Digest::SHA1.hexdigest` and the HTTP request are parameters. So are Nokogiri's parse, the float aspect ratio, the `hyphenate` filter and `Dir[pattern]`. Their internals are outside the plugins. The digest is only constrained to 40 lower-case hex digits.
- `Chart.Render`: `100 / (w.to_f / h.to_f)` is floating point. Its printed text is a parameter of the height and width texts, so only its place in the markup is stated.
- Paths are plain strings, so `a/` and `a` are different directories and `..` is not resolved.
- Text is modelled as a sequence of characters. Ruby strings are byte sequences with an encoding. An SVG file that is not valid UTF-8 makes the `gsub` of `_plugins/svg.rb:16` raise `ArgumentError`, and the model cannot raise there.
- The registration of the tags and the filter with Liquid, and the Liquid context lookups, are not modelled. The post and the site are parameters instead.
- The other plugins (table, compression, data URI) and the C/C++ font tools are not part of this model.
- `Latex.RenderCacheMiss`: stated only for a figure number without '/' and an asset directory without a trailing '/'. Otherwise `File.join` and `File.basename` may name a file elsewhere. It also assumes that nothing but a directory sits at the asset directory's path and that the directory or its parent exists. Those are the cases in which `Dir.mkdir` succeeds. `Latex.Render` covers every input, more weakly.
- `Latex.RenderCacheHit`: stated only for a figure number without '/'.
- `Chart.ChartFignoOfLine`: stated for one-line arguments. For several lines, `ChartFignoOfFirstMatch`, `ChartLabelDefault` and `ChartLabelOfMatch` state the figure number and label in terms of the lines.
- `InlineSvg.StripFromSkipsDecl`: stated only for a declaration whose last `?>` ends its line. Other lines follow the same `LastClose` rule.
- `InlineSvg.Render`: states the success condition and that the output only deletes characters. The exact rewrite is `StripMarkup`, characterised by the `StripFrom…` lemmas.
- `Hyphenation.HyphenateAndFixup`: states that the output only deletes characters from the hyphenated text. The exact rewrites are characterised by the `FixHyphens…` and `FixAmpersands…` lemmas.
- Directories listed in a post's asset directory are registered like files, because the code makes no directory check there. The static tree does skip directories.
- The `latex` block writes its directory path out again instead of calling `Assets.source_path`. `Latex.ArtifactDir` shows the two agree.
