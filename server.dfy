/** The repository-exploration service: one active-repository reference, the operation that
    selects it, the guard every query re-checks, the queries over the recursive walk, and the
    discovery of candidate repositories under `~/Projects`. */
module Server {
  import opened Wrappers
  import opened Seqs
  import opened Strings
  import opened Paths

  const NoActiveRepository: string := "Error: No valid active repository. Use set_repo(path) first."

  // ---------------------------------------------------------------------------------------
  // Repository selector

  /** The guard every query evaluates afresh: a reference is set, the path exists, and it is a directory. */
  function CheckRepoPath(fs: FileSystem, current: Option<Path>): (ok: bool)
    ensures ok <==> current.Some? && Exists(fs, current.value) && IsDir(fs, current.value)
  {
    if current.None? then false
    else if !Exists(fs, current.value) then false
    else if !IsDir(fs, current.value) then false
    else true
  }

  /** The directory `set_repo` considers for its argument: an absolute path (after `~`
      expansion) as given, anything else under `~/Projects`; either way canonicalised. */
  function ResolveRepoInput(fs: FileSystem, input: string): Path {
    var raw := ExpandUser(fs.home, input);
    if IsAbsolute(raw) then fs.resolve(raw)
    else fs.resolve(Join(ProjectsRoot(fs.home), raw))
  }

  lemma ResolveAbsoluteInput(fs: FileSystem, input: string)
    requires IsAbsolute(ExpandUser(fs.home, input))
    ensures ResolveRepoInput(fs, input) == fs.resolve(ExpandUser(fs.home, input))
  {
  }

  lemma ResolveRelativeInput(fs: FileSystem, input: string)
    requires !IsAbsolute(ExpandUser(fs.home, input))
    ensures ResolveRepoInput(fs, input) == fs.resolve(fs.home + "/Projects/" + ExpandUser(fs.home, input))
  {
    var raw := ExpandUser(fs.home, input);
    assert Join(ProjectsRoot(fs.home), raw) == fs.home + "/Projects/" + raw;
  }

  /** What `set_repo` decides for its argument, before anything is assigned. */
  datatype Selection = Selected(repo: Path) | PathNotFound(repo: Path) | NotADirectory(repo: Path)

  function SelectRepository(fs: FileSystem, input: string): (s: Selection)
    ensures s.repo == ResolveRepoInput(fs, input)
    ensures s.PathNotFound? <==> !Exists(fs, s.repo)
    ensures s.Selected? <==> IsDir(fs, s.repo)
    ensures s.Selected? ==> CheckRepoPath(fs, Some(s.repo))
  {
    var repo := ResolveRepoInput(fs, input);
    if !Exists(fs, repo) then PathNotFound(repo)
    else if !IsDir(fs, repo) then NotADirectory(repo)
    else Selected(repo)
  }

  function SetRepoMessage(s: Selection): string {
    match s
    case Selected(repo) => "Active repository set to " + repo
    case PathNotFound(repo) => "Error: Path does not exist: " + repo
    case NotADirectory(repo) => "Error: Path is not a directory: " + repo
  }

  // ---------------------------------------------------------------------------------------
  // Specifications of the queries, over the walk of the active repository

  /** A walk entry is kept by `list_all_files` and `count_files` when it is a regular file. */
  predicate IsFileEntry(fs: FileSystem, root: Path, e: string) {
    IsFile(fs, Join(root, e))
  }

  function FileTest(fs: FileSystem, root: Path): string -> bool {
    e => IsFileEntry(fs, root, e)
  }

  /** The files of the walk below `root`, relative to it, in walk order. */
  function RepoFiles(fs: FileSystem, root: Path): seq<string> {
    Filter(fs.walk(root), FileTest(fs, root))
  }

  lemma RepoFilesExact(fs: FileSystem, root: Path, e: string)
    ensures e in RepoFiles(fs, root) <==> e in fs.walk(root) && IsFile(fs, Join(root, e))
  {
    FilterMembers(fs.walk(root), FileTest(fs, root), e);
  }

  /** A walk entry is a hit of `find_files` when it is a file whose base name contains the
      substring (if one is given) and ends with the extension (if one is given and non-empty). */
  predicate IsHit(fs: FileSystem, root: Path, nameSubstring: string, extension: Option<string>, e: string) {
    && IsFile(fs, Join(root, e))
    && (nameSubstring == "" || Contains(BaseName(e), nameSubstring))
    && (extension.None? || extension.value == "" || EndsWith(BaseName(e), extension.value))
  }

  function FindTest(fs: FileSystem, root: Path, nameSubstring: string, extension: Option<string>): string -> bool {
    e => IsHit(fs, root, nameSubstring, extension, e)
  }

  function FindHits(fs: FileSystem, root: Path, nameSubstring: string, extension: Option<string>, maxResults: int): seq<string> {
    Take(Filter(fs.walk(root), FindTest(fs, root, nameSubstring, extension)), maxResults)
  }

  /** Every hit is a file of the walk that passes both name filters, and there are
      `min(max(maxResults, 0), number of qualifying files)` of them. */
  lemma FindHitsQualify(fs: FileSystem, root: Path, nameSubstring: string, extension: Option<string>, maxResults: int)
    ensures var qualifying := Filter(fs.walk(root), FindTest(fs, root, nameSubstring, extension));
      |FindHits(fs, root, nameSubstring, extension, maxResults)|
        == if maxResults <= 0 then 0 else if maxResults < |qualifying| then maxResults else |qualifying|
    ensures forall h :: h in FindHits(fs, root, nameSubstring, extension, maxResults) ==>
      && h in fs.walk(root) && IsFile(fs, Join(root, h))
      && (nameSubstring != "" ==> Contains(BaseName(h), nameSubstring))
      && (extension.Some? && extension.value != "" ==> EndsWith(BaseName(h), extension.value))
  {
    var all := Filter(fs.walk(root), FindTest(fs, root, nameSubstring, extension));
    var hits := FindHits(fs, root, nameSubstring, extension, maxResults);
    forall h | h in hits
      ensures h in fs.walk(root) && IsHit(fs, root, nameSubstring, extension, h)
    {
      var k :| 0 <= k < |hits| && hits[k] == h;
      assert all[k] == h;
      FilterMembers(fs.walk(root), FindTest(fs, root, nameSubstring, extension), h);
    }
  }

  /** When the limit is not reached, every qualifying file is a hit. */
  lemma FindHitsComplete(fs: FileSystem, root: Path, nameSubstring: string, extension: Option<string>, maxResults: int, e: string)
    requires |Filter(fs.walk(root), FindTest(fs, root, nameSubstring, extension))| <= maxResults
    requires e in fs.walk(root) && FindTest(fs, root, nameSubstring, extension)(e)
    ensures e in FindHits(fs, root, nameSubstring, extension, maxResults)
  {
    FilterMembers(fs.walk(root), FindTest(fs, root, nameSubstring, extension), e);
  }

  /** One line of search output: the file, relative to the repository, the 1-based line
      number, and the line's text. */
  datatype MatchRecord = MatchRecord(path: string, lineNo: nat, text: string)

  /** The output form `relpath:lineNo: stripped text`. */
  function Format(m: MatchRecord): string {
    m.path + ":" + NatToString(m.lineNo) + ": " + Strip(m.text)
  }

  function Render(ms: seq<MatchRecord>): (out: seq<string>)
    ensures |out| == |ms|
    ensures forall k :: 0 <= k < |ms| ==> out[k] == Format(ms[k])
  {
    seq(|ms|, k requires 0 <= k < |ms| => Format(ms[k]))
  }

  lemma RenderSnoc(ms: seq<MatchRecord>, m: MatchRecord)
    ensures Render(ms + [m]) == Render(ms) + [Format(m)]
  {
  }

  lemma RenderAppend(a: seq<MatchRecord>, b: seq<MatchRecord>)
    ensures Render(a + b) == Render(a) + Render(b)
  {
  }

  lemma RenderPrefix(ms: seq<MatchRecord>, k: nat)
    requires k <= |ms|
    ensures Render(ms[..k]) == Render(ms)[..k]
  {
  }

  /** Rendering the first `n` records gives the first `n` output lines. */
  lemma RenderTake(ms: seq<MatchRecord>, n: int)
    ensures Render(Take(ms, n)) == Take(Render(ms), n)
  {
    RenderPrefix(ms, |Take(ms, n)|);
  }

  /** The lines of a file as records, numbered from 1 as `enumerate(..., start=1)` does. */
  function Numbered(path: string, lines: seq<string>): (ms: seq<MatchRecord>)
    ensures |ms| == |lines|
    ensures forall k :: 0 <= k < |lines| ==> ms[k] == MatchRecord(path, k + 1, lines[k])
  {
    seq(|lines|, k requires 0 <= k < |lines| => MatchRecord(path, k + 1, lines[k]))
  }

  function HasQuery(query: string): MatchRecord -> bool {
    (m: MatchRecord) => Contains(m.text, query)
  }

  /** The lines of one file that contain `query`, in line order. */
  function LineMatches(path: string, lines: seq<string>, query: string): seq<MatchRecord> {
    Filter(Numbered(path, lines), HasQuery(query))
  }

  /** The matches of one walk entry: none unless it is a file that can be read. */
  function FileMatches(fs: FileSystem, root: Path, e: string, query: string): seq<MatchRecord> {
    var p := Join(root, e);
    if !IsFile(fs, p) then []
    else
      match ReadTextIgnoringErrors(fs, p)
      case ReadFailed(_) => []
      case Content(text) => LineMatches(e, SplitLines(text), query)
  }

  function FileMatchesOf(fs: FileSystem, root: Path, query: string): string -> seq<MatchRecord> {
    e => FileMatches(fs, root, e, query)
  }

  /** All matches of the walk entries, in walk order and, within a file, in line order. */
  function RepoMatches(fs: FileSystem, root: Path, entries: seq<string>, query: string): seq<MatchRecord> {
    FlatMap(entries, FileMatchesOf(fs, root, query))
  }

  /** A line `m` of a file below `root` that contains the query. */
  predicate IsLineMatch(fs: FileSystem, root: Path, query: string, m: MatchRecord) {
    var p := Join(root, m.path);
    && IsFile(fs, p)
    && ReadTextIgnoringErrors(fs, p).Content?
    && var lines := SplitLines(ReadTextIgnoringErrors(fs, p).text);
    && 1 <= m.lineNo <= |lines| && lines[m.lineNo - 1] == m.text
    && Contains(m.text, query)
  }

  lemma LineMatchesStep(path: string, lines: seq<string>, j: nat, query: string)
    requires j < |lines|
    ensures LineMatches(path, lines[..j + 1], query) == LineMatches(path, lines[..j], query)
      + (if Contains(lines[j], query) then [MatchRecord(path, j + 1, lines[j])] else [])
  {
    var m := MatchRecord(path, j + 1, lines[j]);
    assert Numbered(path, lines[..j + 1]) == Numbered(path, lines[..j]) + [m];
    FilterSnoc(Numbered(path, lines[..j]), m, HasQuery(query));
  }

  lemma LineMatchesExact(path: string, lines: seq<string>, query: string, m: MatchRecord)
    ensures m in LineMatches(path, lines, query) <==>
      m.path == path && 1 <= m.lineNo <= |lines| && lines[m.lineNo - 1] == m.text && Contains(m.text, query)
  {
    FilterMembers(Numbered(path, lines), HasQuery(query), m);
    if m.path == path && 1 <= m.lineNo <= |lines| && lines[m.lineNo - 1] == m.text {
      assert Numbered(path, lines)[m.lineNo - 1] == m;
    }
  }

  /** Within one file, line numbers strictly increase. */
  lemma {:induction false} LineMatchesOrdered(path: string, lines: seq<string>, query: string)
    ensures forall i, j :: 0 <= i < j < |LineMatches(path, lines, query)| ==>
      LineMatches(path, lines, query)[i].lineNo < LineMatches(path, lines, query)[j].lineNo
    decreases |lines|
  {
    if lines != [] {
      var n := |lines|;
      assert lines[..n] == lines;
      LineMatchesStep(path, lines, n - 1, query);
      LineMatchesOrdered(path, lines[..n - 1], query);
      forall m | m in LineMatches(path, lines[..n - 1], query)
        ensures m.lineNo < n
      {
        LineMatchesExact(path, lines[..n - 1], query, m);
      }
    }
  }

  lemma LineMatchesPrefix(path: string, lines: seq<string>, k: nat, query: string)
    requires k <= |lines|
    ensures var a := LineMatches(path, lines[..k], query);
      |a| <= |LineMatches(path, lines, query)| && LineMatches(path, lines, query)[..|a|] == a
  {
    var all := Numbered(path, lines);
    assert Numbered(path, lines[..k]) == all[..k];
    FilterAppend(all[..k], all[k..], HasQuery(query));
    assert all[..k] + all[k..] == all;
  }

  /** One step of the per-file loop over a line that contains the query. */
  lemma LinesStepHit(path: string, lines: seq<string>, j: nat, query: string, matches0: seq<string>, matches: seq<string>)
    requires j < |lines| && Contains(lines[j], query)
    requires matches == matches0 + Render(LineMatches(path, lines[..j], query))
    ensures matches + [Format(MatchRecord(path, j + 1, lines[j]))] == matches0 + Render(LineMatches(path, lines[..j + 1], query))
  {
    var a := LineMatches(path, lines[..j], query);
    var m := MatchRecord(path, j + 1, lines[j]);
    LineMatchesStep(path, lines, j, query);
    RenderSnoc(a, m);
    assert matches + [Format(m)] == matches0 + (Render(a) + [Format(m)]);
  }

  /** One step of the per-file loop over a line that does not contain the query. */
  lemma LinesStepMiss(path: string, lines: seq<string>, j: nat, query: string)
    requires j < |lines| && !Contains(lines[j], query)
    ensures LineMatches(path, lines[..j + 1], query) == LineMatches(path, lines[..j], query)
  {
    LineMatchesStep(path, lines, j, query);
  }

  /** Once the limit is reached after `k` lines, the remaining lines cannot change the output. */
  lemma LinesLimitReached(path: string, lines: seq<string>, k: nat, query: string, matches0: seq<string>,
                          matches: seq<string>, maxResults: int)
    requires k <= |lines|
    requires matches == matches0 + Render(LineMatches(path, lines[..k], query))
    requires |matches| == maxResults
    ensures Take(matches0 + Render(LineMatches(path, lines, query)), maxResults) == matches
  {
    var a := LineMatches(path, lines[..k], query);
    var b := LineMatches(path, lines, query);
    LineMatchesPrefix(path, lines, k, query);
    RenderPrefix(b, |a|);
    assert (matches0 + Render(b))[..|matches|] == matches;
  }

  /** Once the limit is reached after `k` walk entries, the remaining entries cannot change the output. */
  lemma SearchLimitReached(entries: seq<string>, k: nat, perFile: string -> seq<MatchRecord>, maxResults: int)
    requires k <= |entries|
    requires |Take(Render(FlatMap(entries[..k], perFile)), maxResults)| >= maxResults
    ensures Take(Render(FlatMap(entries, perFile)), maxResults) == Take(Render(FlatMap(entries[..k], perFile)), maxResults)
  {
    var a := FlatMap(entries[..k], perFile);
    var b := FlatMap(entries, perFile);
    FlatMapPrefix(entries, k, perFile);
    RenderPrefix(b, |a|);
    TakeStable(Render(a), Render(b), maxResults);
  }

  /** One step of the loop over the walk entries, while the limit is not reached: the entry's
      rendered matches are appended, and an entry without matches changes nothing. */
  lemma SearchStep(entries: seq<string>, i: nat, perFile: string -> seq<MatchRecord>, maxResults: int, matches: seq<string>)
    requires i < |entries|
    requires matches == Take(Render(FlatMap(entries[..i], perFile)), maxResults)
    requires |matches| < maxResults
    ensures Take(matches + Render(perFile(entries[i])), maxResults) == Take(Render(FlatMap(entries[..i + 1], perFile)), maxResults)
    ensures perFile(entries[i]) == [] ==> matches == Take(Render(FlatMap(entries[..i + 1], perFile)), maxResults)
  {
    var a := FlatMap(entries[..i], perFile);
    assert entries[..i + 1] == entries[..i] + [entries[i]];
    FlatMapSnoc(entries[..i], entries[i], perFile);
    RenderAppend(a, perFile(entries[i]));
    assert matches == Render(a);
    if perFile(entries[i]) == [] {
      assert a + perFile(entries[i]) == a;
    }
  }

  /** Matches of a concatenated walk are the matches of the first part followed by those of the second. */
  lemma RepoMatchesAppend(fs: FileSystem, root: Path, s: seq<string>, t: seq<string>, query: string)
    ensures RepoMatches(fs, root, s + t, query) == RepoMatches(fs, root, s, query) + RepoMatches(fs, root, t, query)
  {
    FlatMapAppend(s, t, FileMatchesOf(fs, root, query));
  }

  /** The matches of one walk entry are exactly the lines of that file that contain the query. */
  lemma FileMatchesExact(fs: FileSystem, root: Path, e: string, query: string, m: MatchRecord)
    ensures m in FileMatches(fs, root, e, query) <==> m.path == e && IsLineMatch(fs, root, query, m)
  {
    var p := Join(root, e);
    if IsFile(fs, p) && ReadTextIgnoringErrors(fs, p).Content? {
      LineMatchesExact(e, SplitLines(ReadTextIgnoringErrors(fs, p).text), query, m);
    }
  }

  /** Every match is a line of a file of the walk that contains the query, and every such line is a match. */
  lemma {:induction false} RepoMatchesExact(fs: FileSystem, root: Path, entries: seq<string>, query: string, m: MatchRecord)
    ensures m in RepoMatches(fs, root, entries, query) <==> m.path in entries && IsLineMatch(fs, root, query, m)
    decreases |entries|
  {
    if entries != [] {
      var n := |entries| - 1;
      var e := entries[n];
      RepoMatchesExact(fs, root, entries[..n], query, m);
      assert entries == entries[..n] + [e];
      FlatMapSnoc(entries[..n], e, FileMatchesOf(fs, root, query));
      FileMatchesExact(fs, root, e, query, m);
    }
  }

  /** The output of `search_in_repo` on a valid repository. */
  function SearchResults(fs: FileSystem, root: Path, query: string, maxResults: int): seq<string> {
    Render(Take(RepoMatches(fs, root, fs.walk(root), query), maxResults))
  }

  /** Each output line is `relpath:lineNo: stripped text` for a line, of a file of the walk,
      that contains the query; there are `min(max(maxResults, 0), number of matches)` of them,
      and they are the first matches in walk order and line order. */
  lemma SearchResultsSound(fs: FileSystem, root: Path, query: string, maxResults: int)
    ensures var all := RepoMatches(fs, root, fs.walk(root), query);
      var out := SearchResults(fs, root, query, maxResults);
      && |out| == (if maxResults <= 0 then 0 else if maxResults < |all| then maxResults else |all|)
      && forall k :: 0 <= k < |out| ==>
           && out[k] == Format(all[k])
           && all[k].path in fs.walk(root)
           && IsLineMatch(fs, root, query, all[k])
  {
    var all := RepoMatches(fs, root, fs.walk(root), query);
    var found := Take(all, maxResults);
    forall k | 0 <= k < |found|
      ensures all[k].path in fs.walk(root) && IsLineMatch(fs, root, query, all[k])
    {
      RepoMatchesExact(fs, root, fs.walk(root), query, all[k]);
    }
  }

  /** When the limit is not reached, every line of a file of the walk that contains the query is reported. */
  lemma SearchResultsComplete(fs: FileSystem, root: Path, query: string, maxResults: int, m: MatchRecord)
    requires |RepoMatches(fs, root, fs.walk(root), query)| <= maxResults
    requires m.path in fs.walk(root) && IsLineMatch(fs, root, query, m)
    ensures Format(m) in SearchResults(fs, root, query, maxResults)
  {
    var all := RepoMatches(fs, root, fs.walk(root), query);
    RepoMatchesExact(fs, root, fs.walk(root), query, m);
    var k :| 0 <= k < |all| && all[k] == m;
    assert SearchResults(fs, root, query, maxResults)[k] == Format(m);
  }

  /** A child of `~/Projects` is listed by `list_projects` when it is a directory. */
  predicate IsDirEntry(fs: FileSystem, root: Path, e: string) {
    IsDir(fs, Join(root, e))
  }

  function DirTest(fs: FileSystem, root: Path): string -> bool {
    e => IsDirEntry(fs, root, e)
  }

  /** What `list_projects` yields: the names, or the `NotADirectoryError` that `iterdir` raises
      when `~/Projects` exists but is not a directory. */
  datatype ProjectListing = Projects(names: seq<string>) | RootNotADirectory

  lemma ProjectNamesExact(fs: FileSystem, name: string)
    ensures var root := ProjectsRoot(fs.home);
      name in Filter(fs.listDir(root), DirTest(fs, root)) <==> name in fs.listDir(root) && IsDir(fs, Join(root, name))
  {
    var root := ProjectsRoot(fs.home);
    FilterMembers(fs.listDir(root), DirTest(fs, root), name);
  }

  // ---------------------------------------------------------------------------------------
  // Discovery helper: independent of the active repository

  method ListProjects(fs: FileSystem) returns (r: ProjectListing)
    ensures !Exists(fs, ProjectsRoot(fs.home)) ==> r == Projects([])
    ensures Exists(fs, ProjectsRoot(fs.home)) && !IsDir(fs, ProjectsRoot(fs.home)) ==> r == RootNotADirectory
    ensures IsDir(fs, ProjectsRoot(fs.home)) ==>
      r == Projects(Filter(fs.listDir(ProjectsRoot(fs.home)), DirTest(fs, ProjectsRoot(fs.home))))
  {
    var root := ProjectsRoot(fs.home);
    if !Exists(fs, root) {
      return Projects([]);
    }
    if !IsDir(fs, root) {
      return RootNotADirectory;
    }
    var children := fs.listDir(root);
    var projects: seq<string> := [];
    for i := 0 to |children|
      invariant projects == Filter(children[..i], DirTest(fs, root))
    {
      if IsDir(fs, Join(root, children[i])) {
        FilterKeep(children, i, DirTest(fs, root));
        projects := projects + [children[i]];
      } else {
        FilterSkip(children, i, DirTest(fs, root));
      }
    }
    assert children[..|children|] == children;
    return Projects(projects);
  }

  /** The inner loop of `search_in_repo` over one file's lines: appends the rendered matches
      to `matches0` and stops as soon as `maxResults` lines have been collected. */
  method SearchLines(path: string, lines: seq<string>, query: string, maxResults: int, matches0: seq<string>)
    returns (matches: seq<string>)
    requires |matches0| < maxResults
    ensures matches == Take(matches0 + Render(LineMatches(path, lines, query)), maxResults)
  {
    matches := matches0;
    for j := 0 to |lines|
      invariant matches == matches0 + Render(LineMatches(path, lines[..j], query))
      invariant |matches| < maxResults
    {
      if !Contains(lines[j], query) {
        LinesStepMiss(path, lines, j, query);
      } else {
        LinesStepHit(path, lines, j, query, matches0, matches);
        matches := matches + [Format(MatchRecord(path, j + 1, lines[j]))];
        if |matches| >= maxResults {
          LinesLimitReached(path, lines, j + 1, query, matches0, matches, maxResults);
          return;
        }
      }
    }
    assert lines[..|lines|] == lines;
  }

  // ---------------------------------------------------------------------------------------
  // The service state and the operations that depend on it

  class RepoExplorer {
    /** The active repository: absent at start, replaced only by `SetRepo`, never cleared. */
    var currentRepo: Option<Path>

    constructor ()
      ensures currentRepo == None
    {
      currentRepo := None;
    }

    method SetRepo(fs: FileSystem, path: string) returns (msg: string)
      modifies this
      ensures SelectRepository(fs, path).Selected? ==> currentRepo == Some(SelectRepository(fs, path).repo)
      ensures !SelectRepository(fs, path).Selected? ==> currentRepo == old(currentRepo)
      ensures msg == SetRepoMessage(SelectRepository(fs, path))
      ensures SelectRepository(fs, path).Selected? ==> CheckRepoPath(fs, currentRepo)
    {
      var selection := SelectRepository(fs, path);
      if selection.Selected? {
        currentRepo := Some(selection.repo);
      }
      msg := SetRepoMessage(selection);
    }

    method ListAllFiles(fs: FileSystem) returns (files: seq<string>)
      ensures !CheckRepoPath(fs, currentRepo) ==> files == [NoActiveRepository]
      ensures CheckRepoPath(fs, currentRepo) ==> files == RepoFiles(fs, currentRepo.value)
    {
      if !CheckRepoPath(fs, currentRepo) {
        return [NoActiveRepository];
      }
      var root := currentRepo.value;
      var entries := fs.walk(root);
      files := [];
      for i := 0 to |entries|
        invariant files == Filter(entries[..i], FileTest(fs, root))
      {
        if IsFile(fs, Join(root, entries[i])) {
          FilterKeep(entries, i, FileTest(fs, root));
          files := files + [entries[i]];
        } else {
          FilterSkip(entries, i, FileTest(fs, root));
        }
      }
      assert entries[..|entries|] == entries;
    }

    method ReadFile(fs: FileSystem, relativePath: string) returns (r: string)
      ensures !CheckRepoPath(fs, currentRepo) ==> r == NoActiveRepository
      ensures CheckRepoPath(fs, currentRepo) ==>
        var target := Join(currentRepo.value, relativePath);
        && (!Exists(fs, target) ==> r == "Error: File does not exist: " + relativePath)
        && (Exists(fs, target) && !IsFile(fs, target) ==> r == "Error: Not a file: " + relativePath)
        && (IsFile(fs, target) && FileDataAt(fs, target).Decoded? ==> r == FileDataAt(fs, target).content)
        && (IsFile(fs, target) && !FileDataAt(fs, target).Decoded? ==>
              r == "Error reading file: " + FileDataAt(fs, target).cause)
    {
      if !CheckRepoPath(fs, currentRepo) {
        return NoActiveRepository;
      }
      var filePath := Join(currentRepo.value, relativePath);
      if !Exists(fs, filePath) {
        return "Error: File does not exist: " + relativePath;
      }
      if !IsFile(fs, filePath) {
        return "Error: Not a file: " + relativePath;
      }
      match ReadText(fs, filePath)
      case ReadFailed(cause) =>
        return "Error reading file: " + cause;
      case Content(content) =>
        return content;
    }

    method CountFiles(fs: FileSystem) returns (count: int)
      ensures !CheckRepoPath(fs, currentRepo) ==> count == -1
      ensures CheckRepoPath(fs, currentRepo) ==> count == |RepoFiles(fs, currentRepo.value)|
    {
      if !CheckRepoPath(fs, currentRepo) {
        return -1;
      }
      var root := currentRepo.value;
      var entries := fs.walk(root);
      count := 0;
      ghost var counted: seq<string> := [];
      for i := 0 to |entries|
        invariant counted == Filter(entries[..i], FileTest(fs, root))
        invariant count == |counted|
      {
        if IsFile(fs, Join(root, entries[i])) {
          FilterKeep(entries, i, FileTest(fs, root));
          count := count + 1;
          counted := counted + [entries[i]];
        } else {
          FilterSkip(entries, i, FileTest(fs, root));
        }
      }
      assert entries[..|entries|] == entries;
    }

    method SearchInRepo(fs: FileSystem, query: string, maxResults: int) returns (matches: seq<string>)
      ensures !CheckRepoPath(fs, currentRepo) ==> matches == [NoActiveRepository]
      ensures CheckRepoPath(fs, currentRepo) ==> matches == SearchResults(fs, currentRepo.value, query, maxResults)
    {
      if !CheckRepoPath(fs, currentRepo) {
        return [NoActiveRepository];
      }
      var root := currentRepo.value;
      var entries := fs.walk(root);
      ghost var perFile := FileMatchesOf(fs, root, query);
      matches := [];
      for i := 0 to |entries|
        invariant matches == Take(Render(FlatMap(entries[..i], perFile)), maxResults)
      {
        if |matches| >= maxResults {
          SearchLimitReached(entries, i, perFile, maxResults);
          break;
        }
        SearchStep(entries, i, perFile, maxResults, matches);
        var p := Join(root, entries[i]);
        if IsFile(fs, p) {
          match ReadTextIgnoringErrors(fs, p)
          case ReadFailed(_) =>
          case Content(text) =>
            matches := SearchLines(entries[i], SplitLines(text), query, maxResults, matches);
        }
      }
      assert entries[..|entries|] == entries;
      RenderTake(RepoMatches(fs, root, entries, query), maxResults);
    }

    method FindFiles(fs: FileSystem, nameSubstring: string, extension: Option<string>, maxResults: int)
      returns (hits: seq<string>)
      ensures !CheckRepoPath(fs, currentRepo) ==> hits == [NoActiveRepository]
      ensures CheckRepoPath(fs, currentRepo) ==> hits == FindHits(fs, currentRepo.value, nameSubstring, extension, maxResults)
    {
      if !CheckRepoPath(fs, currentRepo) {
        return [NoActiveRepository];
      }
      var root := currentRepo.value;
      var entries := fs.walk(root);
      ghost var test := FindTest(fs, root, nameSubstring, extension);
      hits := [];
      for i := 0 to |entries|
        invariant hits == Take(Filter(entries[..i], test), maxResults)
      {
        if |hits| >= maxResults {
          TakeFilterLimit(entries, i, test, maxResults);
          break;
        }
        if !IsFile(fs, Join(root, entries[i])) {
          TakeFilterSkip(entries, i, test, maxResults);
          continue;
        }
        var filename := BaseName(entries[i]);
        if nameSubstring != "" && !Contains(filename, nameSubstring) {
          TakeFilterSkip(entries, i, test, maxResults);
          continue;
        }
        if extension.Some? && extension.value != "" && !EndsWith(filename, extension.value) {
          TakeFilterSkip(entries, i, test, maxResults);
          continue;
        }
        TakeFilterKeep(entries, i, test, maxResults);
        hits := hits + [entries[i]];
      }
      assert entries[..|entries|] == entries;
    }
  }
}
