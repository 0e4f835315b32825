# Repo Explorer, modelled in Dafny

Repo Explorer is a small tool service. It lets a client pick one local source repository
(the *active repository*) and then query it. The queries list its files, read one file,
count its files, search its text line by line, and find files by name. A separate helper
lists the candidate repositories under `~/Projects`.

This project models the tool functions of `src/server.py` and proves what they promise:

- The guard every query re-checks.
- How `set_repo` resolves its argument, and replace-or-reject on the active repository.
- The exact result shape of each query when no valid repository is set.
- The order and the contents of each query's output.
- How the `max_results` limits cut the output.

Modules, one concern each:

| file | module | what |
|---|---|---|
| `wrappers.dfy` | `Wrappers` | `Option` |
| `seqs.dfy` | `Seqs` | `Filter`, `Take` and `FlatMap`, with the lemmas the query loops need |
| `strings.dfy` | `Strings` | the Python `str` operations used: `in`, `endswith`, `strip()`, `splitlines()`, `str(int)` |
| `paths.dfy` | `Paths` | the filesystem as a value, and the `pathlib` operations used |
| `server.dfy` | `Server` | the service itself |

The global `CURRENT_REPO_PATH`, which `set_repo` replaces, is the field `currentRepo` of the
class `Server.RepoExplorer`. Each tool that reads or replaces it is a method of that class.
Each query method loops, as the source does, over the walk of the repository. It is proved
against a specification function:

- `RepoFiles` for `list_all_files` and `count_files`
- `SearchResults` for `search_in_repo`
- `FindHits` for `find_files`

What the source promises is then proved as lemmas about those functions. `list_projects`
does not use the active repository, so it is the module-level method `Server.ListProjects`.

The operating system is a value of type `Paths.FileSystem`. It holds:

- A map from canonical paths to nodes: a directory, a regular file or anything else.
- The OS's own `Path.resolve()`, `rglob("*")` and `iterdir()` as given functions.

Every `exists()`, `is_dir()` and `is_file()` test looks its path up after resolving it, as
`stat` follows symbolic links. A file records what reading it yields:

- text that decodes;
- text that fails strict decoding, with what `errors="ignore"` leaves of it;
- a read that fails.

So `read_text()` and `read_text(errors="ignore")` differ exactly as they do in Python.

`list_projects` can raise. It calls `iterdir()` on `~/Projects` after checking only
`exists()` (src/server.py:29-35), so a regular file there raises `NotADirectoryError`. The
model returns the distinct outcome `ProjectListing.RootNotADirectory` for that case.

## Model

| member | source | states |
|---|---|---|
| Server.CheckRepoPath | src/server.py:12-20 | the repository guard holds exactly when a reference is set, that path exists, and it is a directory |
| Server.ResolveAbsoluteInput | src/server.py:54-56 | an argument that is absolute after `~` expansion resolves to `resolve(itself)` |
| Server.ResolveRelativeInput | src/server.py:57-59 | a relative argument resolves to `resolve(home + "/Projects/" + argument)` |
| Server.ResolveRepoInput | src/server.py:54-59 | the directory `set_repo` considers: `Path(path).expanduser()`, resolved as given when absolute, and otherwise resolved under `~/Projects` |
| Server.SelectRepository | src/server.py:54-67 | the decision of `set_repo`: the path is not found exactly when it does not exist; it is selected exactly when it is a directory; a selected path then passes the repository guard |
| Server.RepoExplorer.constructor | src/server.py:8 | the service starts with no active repository |
| Server.SetRepoMessage | src/server.py:63-70 | the reply of `set_repo`: `Active repository set to <repo>`, `Error: Path does not exist: <repo>` or `Error: Path is not a directory: <repo>`, always naming the resolved path |
| Server.RepoExplorer.SetRepo | src/server.py:43-70 | atomic replace-or-reject: on success the reference becomes the resolved directory and passes the guard; on either failure the reference is unchanged; the message is the exact confirmation or error text |
| Server.ListProjects | src/server.py:27-40 | `[]` when `~/Projects` is missing; the `NotADirectoryError` outcome when it exists but is not a directory; otherwise exactly the children that are directories, in iteration order |
| Server.ProjectNamesExact | src/server.py:35-37 | a name is listed exactly when it is a child of `~/Projects` that is a directory |
| Server.RepoExplorer.ListAllFiles | src/server.py:80-90 | the one-element error list without a valid repository; otherwise the walk's entries that are regular files, in walk order |
| Server.RepoFiles | src/server.py:85-87 | the specification of `list_all_files` and `count_files`: the walk entries that are regular files, in walk order |
| Server.RepoFilesExact | src/server.py:85-87 | an entry is listed exactly when it is in the walk and is a regular file |
| Server.RepoExplorer.ReadFile | src/server.py:103-121 | checks in source order: no repository, then does not exist, then not a file, then strict-read failure with its cause; otherwise the file's decoded content |
| Server.RepoExplorer.CountFiles | src/server.py:127-136 | -1 without a valid repository; otherwise precisely the number of entries `list_all_files` returns |
| Server.RepoExplorer.SearchInRepo | src/server.py:147-165 | the one-element error list without a valid repository; otherwise the first `max_results` rendered matches of the walk, in walk order and then line order |
| Server.Format | src/server.py:158 | one output line: the relative path, `:`, the decimal line number, `: `, the line with surrounding whitespace stripped |
| Server.LineMatches | src/server.py:156-158 | the lines of one file that contain the query, numbered from 1, in line order |
| Server.FileMatches | src/server.py:154-162 | the matches of one walk entry: none for a non-file or a failed read, otherwise the matching lines of its error-ignoring text |
| Server.RepoMatches | src/server.py:151-162 | every match of the walk as a record, the files in walk order and each file's matching lines in line order |
| Server.SearchResults | src/server.py:150-160 | the specification of `search_in_repo`: the first `max_results` matches, rendered with `Format` |
| Server.SearchLines | src/server.py:155-160 | the per-file loop appends the file's rendered matches and stops once the limit is reached |
| Server.LinesLimitReached | src/server.py:159-160 | once the limit is reached inside a file, its remaining lines cannot change the output |
| Server.SearchLimitReached | src/server.py:151-153 | once the limit is reached, the remaining walk entries cannot change the output |
| Server.SearchStep | src/server.py:151-162 | one walk entry appends its rendered matches; an entry that is not a file, or that cannot be read, adds nothing |
| Server.LineMatchesExact | src/server.py:156-158 | a record is a match of a file exactly when it is that file's line `i` (1-based) and that line contains the query |
| Server.LineMatchesOrdered | src/server.py:156 | within one file, line numbers strictly increase |
| Server.LineMatchesPrefix | src/server.py:156-158 | the matches of the first `k` lines are a prefix of the file's matches |
| Server.FileMatchesExact | src/server.py:154-162 | a walk entry's matches are exactly its lines that contain the query; a non-file or an unreadable file has none |
| Server.RepoMatchesExact | src/server.py:151-162 | a record is a match exactly when its path is in the walk and it is a line containing the query, of a readable file |
| Server.RepoMatchesAppend | src/server.py:151 | the matches of a concatenated walk are the first part's matches followed by the second's (walk order) |
| Server.SearchResultsSound | src/server.py:150-160 | there are exactly `min(max(max_results, 0), number of matches)` output lines; line `k` is `relpath:i: strip(line)` for the `k`-th match in walk then line order, a line of a walked file that contains the query |
| Server.SearchResultsComplete | src/server.py:150-158 | while the limit is not reached, every line of a walked file that contains the query is reported |
| Server.RepoExplorer.FindFiles | src/server.py:178-194 | the one-element error list without a valid repository; otherwise the first `max_results` walk entries that are files and pass both name filters, in walk order |
| Server.IsHit | src/server.py:185-190 | the filters of `find_files`: a regular file whose base name contains the substring when it is non-empty and ends with the extension when one is given and non-empty |
| Server.FindHits | src/server.py:181-191 | the specification of `find_files`: the first `max_results` walk entries that are hits, in walk order |
| Server.FindHitsQualify | src/server.py:181-191 | exactly `min(max(max_results, 0), number of qualifying files)` hits; each is a walked file whose base name contains the non-empty substring and ends with the non-empty extension |
| Server.FindHitsComplete | src/server.py:182-191 | while the limit is not reached, every walked file that passes both filters is a hit |
| Strings.EndsWith | src/server.py:189 | `filename.endswith(extension)`: the last `|extension|` characters are the extension; every string ends with `""` |
| Strings.Contains | src/server.py:157 | `q in s`: `q` is a prefix of `s` or of one of its suffixes; the empty string is in every string |
| Strings.ContainsIffOccurs | src/server.py:157 | `q in s` holds exactly when `q` occurs in `s` at some index |
| Strings.TrimStartCutsSpace | src/server.py:158 | everything removed from the front by `strip()` is whitespace |
| Strings.TrimEndCutsSpace | src/server.py:158 | everything removed from the back by `strip()` is whitespace |
| Strings.Strip | src/server.py:158 | a non-empty stripped line neither starts nor ends with whitespace |
| Strings.StripCutsOnlySpace | src/server.py:158 | `strip()` keeps one contiguous run of the line and cuts only whitespace on both sides |
| Strings.SplitLines | src/server.py:156 | no line contains a line boundary; the empty text has no lines, and a non-empty text starts with its first line |
| Strings.SplitLinesRoundTrip | src/server.py:156 | `splitlines()` loses only the boundaries: each line but the last is followed by one boundary (a boundary character or `\r\n`), the last by one or none, and putting them back gives the text |
| Strings.SplitLinesCanonical | src/server.py:156 | the split is the one `splitlines()` makes: a last line without a boundary is not empty, so a final boundary adds no empty line, and a `\r` boundary is never followed by an empty line ending in `\n`, so `\r\n` is one boundary |
| Strings.NatToString | src/server.py:158 | the line number is rendered as decimal digits without leading zeros |
| Strings.ParseNatToString | src/server.py:158 | reading the rendered line number back gives the number |
| Paths.Exists | src/server.py:16 | `p.exists()`: the resolved path names a node |
| Paths.IsDir | src/server.py:18 | `p.is_dir()`: the resolved path names a directory |
| Paths.IsFile | src/server.py:86 | `p.is_file()`: the resolved path names a regular file |
| Paths.IsAbsolute | src/server.py:55 | `p.is_absolute()` on POSIX: the path starts with `/` |
| Paths.ReadText | src/server.py:115 | the strict read succeeds exactly when the file decodes |
| Paths.ReadTextIgnoringErrors | src/server.py:156 | the error-ignoring read fails only when the read itself fails, and agrees with the strict read whenever that succeeds |
| Paths.ExpandUserAbsolute | src/server.py:54-55 | with an absolute home, `~`, `~/...` and absolute arguments all expand to absolute paths, so they take the `is_absolute()` branch |
| Paths.Join | src/server.py:58 | `base / rel`: `base + "/" + rel` for a relative `rel`; an absolute `rel` replaces the base |
| Paths.JoinShape | src/server.py:106 | a relative operand lands below `base + "/"` and is recovered after it; an absolute operand escapes the base entirely |
| Paths.ProjectsRoot | src/server.py:27 | the discovery root is `home + "/Projects"` |
| Paths.BaseName | src/server.py:186 | `p.name` is the longest suffix of the path without a `/` |
| Seqs.FilterMembers | src/server.py:85-87 | a filtering loop keeps exactly the elements that pass its test |
| Seqs.FilterAppend | src/server.py:85-87 | filtering preserves order across concatenation |
| Seqs.TakeFilterLimit | src/server.py:183-184 | once `find_files` holds `max_results` hits, the rest of the walk cannot change them |
| Seqs.FlatMapAppend | src/server.py:151-158 | concatenating per-file outputs preserves walk order across concatenation |
| Seqs.Take | src/server.py:152-153 | a limit keeps `max(n, 0)` elements, or all of them when fewer, always a prefix |

## Left out

- The FastMCP wiring is not part of this model: the `@mcp.tool()` registration, the stdio transport and `main`. Neither is logging. They have no effect on results.
- `src/client_agent.py` is not part of this model. It is a client that only calls these tools.
- The OS is given, not modelled: path canonicalisation (`..`, symbolic links), the traversal order of `rglob` and the order of `iterdir` are the given functions of `Paths.FileSystem`. The model proves facts relative to them.
- Exceptions raised by `rglob` or `iterdir` part-way through a walk are not modelled; the walk is a complete sequence. A directory `rglob` cannot list is skipped by `rglob` itself, so it is simply absent from the given walk.
- `Paths.Exists`, `Paths.IsDir` and `Paths.IsFile` are total. On Python 3.8 to 3.12, `exists()`, `is_dir()` and `is_file()` return `False` only for the stat errors ENOENT, ENOTDIR, EBADF and ELOOP; any other (EACCES raises `PermissionError`) propagates. That can end `check_repo_path` (src/server.py:16-18), `list_projects` (:29, :36), `set_repo` (:61, :64), `read_file` (:108, :111), `list_all_files` (:86), `count_files` (:132), `search_in_repo` (:154) and `find_files` (:185) with an exception; at :154 and :185 it is outside any `try`. The model has no such outcome: every path either resolves to a node or does not.
- `ExpandUser`: only `~` and `~/...` are expanded. A `~user` prefix is left as it is, while Python expands it to that user's home directory and raises `RuntimeError` for an unknown user. `Path(path)` also drops `.` segments before its `~` test, so `./~` and `./~/x` name the home directory in Python but stay relative in the model and are resolved under `~/Projects`.
- `Paths.Join`: an absolute right operand replaces the base, as `pathlib` does. `read_file` can therefore reach outside the repository. This is stated by `Paths.JoinShape` and not restricted.
- Text decoding: the locale's encoding and the details of UTF-8 decoding are not modelled. A file records, as `FileData`, whether a strict read decodes and what an error-ignoring read yields.
- The text of a caught exception, `{e}`, is the opaque `cause` string of `FileData`.
- Concurrency: tool calls are modelled one at a time on one `RepoExplorer`.
- Default arguments: `max_results = 50`, `name_substring = ""` and `extension = None` are defaults the caller passes explicitly; Dafny has no default parameters.
- `ListProjects`: the `NotADirectoryError` raised by `iterdir` is modelled as the outcome `RootNotADirectory`, not as an exception.
