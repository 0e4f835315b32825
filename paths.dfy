/** The filesystem as the server sees it through `pathlib`, and the path operations it uses.

    The operating system is a value: a map from canonical absolute paths to nodes, plus the
    OS's own path resolution, recursive walk and directory listing as given functions.  Every
    existence or kind test resolves its path first, as `stat` does. */
module Paths {
  import opened Wrappers
  import opened Strings

  /** A POSIX path, as the text `str(path)` would give. */
  type Path = string

  /** What a read of a regular file yields. */
  datatype FileData =
    | Decoded(content: string)                  // reads and decodes as text
    | Undecodable(lossy: string, cause: string) // strict decoding fails; ignoring errors gives `lossy`
    | Unreadable(cause: string)                 // the read itself fails (permissions, I/O)

  /** A filesystem entry after following symbolic links: a directory, a regular file, or
      anything else (a socket, a device, a FIFO), which is neither. */
  datatype Node = Dir | File(data: FileData) | Special

  datatype FileSystem = FileSystem(
    home: Path,                    // the user's home directory, for `~`
    nodes: map<Path, Node>,        // keyed by canonical absolute path
    resolve: Path -> Path,         // `Path.resolve()`: the canonical form of a path
    walk: Path -> seq<string>,     // `rglob("*")`: every entry below a directory, relative to it, in traversal order
    listDir: Path -> seq<string>)  // `iterdir()`: the names of the immediate children, in iteration order

  function Lookup(fs: FileSystem, p: Path): (n: Option<Node>)
    ensures n.Some? <==> fs.resolve(p) in fs.nodes
  {
    var c := fs.resolve(p);
    if c in fs.nodes then Some(fs.nodes[c]) else None
  }

  /** `p.exists()` */
  predicate Exists(fs: FileSystem, p: Path) {
    Lookup(fs, p).Some?
  }

  /** `p.is_dir()` */
  predicate IsDir(fs: FileSystem, p: Path) {
    Lookup(fs, p) == Some(Dir)
  }

  /** `p.is_file()` */
  predicate IsFile(fs: FileSystem, p: Path) {
    Lookup(fs, p).Some? && Lookup(fs, p).value.File?
  }

  function FileDataAt(fs: FileSystem, p: Path): FileData
    requires IsFile(fs, p)
  {
    Lookup(fs, p).value.data
  }

  datatype ReadOutcome = Content(text: string) | ReadFailed(cause: string)

  /** `p.read_text()`: strict decoding, so an undecodable file fails. */
  function ReadText(fs: FileSystem, p: Path): (r: ReadOutcome)
    requires IsFile(fs, p)
    ensures r.Content? <==> FileDataAt(fs, p).Decoded?
  {
    match FileDataAt(fs, p)
    case Decoded(content) => Content(content)
    case Undecodable(_, cause) => ReadFailed(cause)
    case Unreadable(cause) => ReadFailed(cause)
  }

  /** `p.read_text(errors="ignore")`: only a failing read fails. */
  function ReadTextIgnoringErrors(fs: FileSystem, p: Path): (r: ReadOutcome)
    requires IsFile(fs, p)
    ensures r.ReadFailed? <==> FileDataAt(fs, p).Unreadable?
    ensures ReadText(fs, p).Content? ==> r == ReadText(fs, p)
  {
    match FileDataAt(fs, p)
    case Decoded(content) => Content(content)
    case Undecodable(lossy, _) => Content(lossy)
    case Unreadable(cause) => ReadFailed(cause)
  }

  /** `p.is_absolute()` on POSIX. */
  predicate IsAbsolute(p: Path) {
    |p| > 0 && p[0] == '/'
  }

  /** `Path(p).expanduser()`: a leading `~` alone or followed by `/` stands for the home directory. */
  function ExpandUser(home: Path, p: string): Path {
    if p == "~" then home
    else if |p| >= 2 && p[..2] == "~/" then home + p[1..]
    else p
  }

  /** With an absolute home directory, `~`, `~/...` and absolute paths all expand to absolute paths. */
  lemma ExpandUserAbsolute(home: Path, p: string)
    requires IsAbsolute(home)
    requires p == "~" || (|p| >= 2 && p[..2] == "~/") || IsAbsolute(p)
    ensures IsAbsolute(ExpandUser(home, p))
  {
  }

  /** `base / rel`: an absolute right operand replaces the base, so the result need not lie under it. */
  function Join(base: Path, rel: string): Path {
    if IsAbsolute(rel) then rel else base + "/" + rel
  }

  /** A relative operand lands below `base + "/"`; an absolute one escapes `base` entirely. */
  lemma JoinShape(base: Path, rel: string)
    ensures IsAbsolute(rel) ==> Join(base, rel) == rel
    ensures !IsAbsolute(rel) ==> IsPrefix(base + "/", Join(base, rel)) && Join(base, rel)[|base| + 1..] == rel
    ensures IsAbsolute(base) ==> IsAbsolute(Join(base, rel))
  {
  }

  /** `p.name`: the last component of a path, that is, what follows its last `/`. */
  function BaseName(p: Path): (r: string)
    ensures '/' !in r
    ensures |r| <= |p| && p[|p| - |r|..] == r
    ensures |r| < |p| ==> p[|p| - |r| - 1] == '/'
    decreases |p|
  {
    if p == [] || p[|p| - 1] == '/' then []
    else BaseName(p[..|p| - 1]) + [p[|p| - 1]]
  }

  /** `Path("~/Projects").expanduser()`: where repositories are looked for. */
  function ProjectsRoot(home: Path): (r: Path)
    ensures r == home + "/Projects"
  {
    ExpandUser(home, "~/Projects")
  }
}
