/** The state the plugins read and change, as an immutable record: the site's source
    tree (directories and file contents, keyed by path relative to the site source)
    and the registry of static files Jekyll copies into the output. */
module SiteModel {
  import opened Paths

  datatype Option<T> = None | Some(value: T)

  /** The exceptions the plugins let escape, each with the path or URL it concerns. */
  datatype Error =
    | NoSuchFile(path: string)        // Errno::ENOENT
    | FileExists(path: string)        // Errno::EEXIST
    | IsADirectory(path: string)      // Errno::EISDIR
    | NotADirectory(path: string)     // Errno::ENOTDIR
    | FetchFailed(url: string)        // the HTTP request raised
    | NoSvgRoot(path: string)         // NoMethodError on the nil root element
    | NilConversion                   // TypeError: no implicit conversion of nil into String

  datatype Result<T> = Ok(value: T) | Err(error: Error)

  /** The fields of a Jekyll post document the plugins read. */
  datatype Post = Post(path: string, url: string, id: string)

  /** `AssetFile.new(site, base, dir, name)`: a static file at `name` under `base` in
      the source tree, copied to `name` under `dir` in the output. */
  datatype AssetFile = AssetFile(base: string, dir: string, name: string)

  datatype Site = Site(
    dirs: set<string>,
    files: map<string, string>,
    posts: seq<Post>,
    staticFiles: seq<AssetFile>)

  /** `File.exist?`: true for files and directories alike. */
  predicate Exists(site: Site, p: string) {
    p in site.files || p in site.dirs
  }

  /** The error for creating `p` in a parent that is not a directory: ENOTDIR when the
      parent is a file, ENOENT when it does not exist. */
  function MissingParent(site: Site, p: string): Error
  {
    if ParentDir(p) in site.files then NotADirectory(p) else NoSuchFile(p)
  }

  /** `Dir.mkdir(p)`: fails when something already exists at `p` or its parent is not
      a directory (a file, or nothing at all). */
  function MakeDir(site: Site, p: string): Result<Site>
  {
    if Exists(site, p) then Err(FileExists(p))
    else if ParentDir(p) !in site.dirs then Err(MissingParent(site, p))
    else Ok(site.(dirs := site.dirs + {p}))
  }

  /** `File.write(p, data)`: replaces the contents; fails when `p` is a directory or its
      parent is not one. */
  function WriteFile(site: Site, p: string, data: string): Result<Site>
  {
    if p in site.dirs then Err(IsADirectory(p))
    else if ParentDir(p) !in site.dirs then Err(MissingParent(site, p))
    else Ok(site.(files := site.files[p := data]))
  }

  /** `open(p, "r") { |f| f.read }`. */
  function ReadFile(site: Site, p: string): Result<string>
  {
    if p in site.dirs then Err(IsADirectory(p))
    else if p in site.files then Ok(site.files[p])
    else Err(MissingParent(site, p))
  }
}
