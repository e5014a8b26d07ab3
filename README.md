# basic-git-web-interface: verified model of the request-gating and naming layer

This project is a Dafny model of the part of basic-git-web-interface that
decides which names, paths and requests reach git. It covers five groups of code:

- **Validators** (`git_web/helpers/checkers.py`): repository names, directory
  names, commit hashes, reserved names, the path-contains search and the
  clone-URL scheme check.
- **Path and tree helpers** (`git_web/helpers/calculations.py`):
  - joining a directory name and a repository name onto `REPOS_PATH`, without
    checks and with checks;
  - the `REPOS_SSH_BASE:dir/name.git` clone URI;
  - the folders-then-files order of a repository tree;
  - the breadcrumb components of a tree path.
- **Legacy helpers** (`git_web/helpers.py`): where its code matches the
  current helpers, the model uses the same members. The two differences are
  modelled on their own: its directory-name check ignores `DISALLOWED_DIRS`,
  and it reads `DISALLOWED_DIRS` by splitting one environment string.
- **Request guards** (`git_web/helpers/requests.py`) and the **Smart HTTP
  route gate** (`git_web/views/git_http.py`):
  - a bad name or a missing repository becomes 404;
  - a disabled service becomes 404 before authentication is asked for;
  - an unknown pack type is 404 on POST and 403 on GET.
- **Commit-log parser** (`git_web/git/log.py`): the `hash;;email;;date;;subject`
  lines of `git log`.

Modules and what they hold:

| module | holds |
|---|---|
| `Results` | `Option` and `Result` |
| `Strings` | the Python `str` operations the code relies on |
| `Paths` | POSIX `pathlib` paths as sequences of parts |
| `Settings` | the configuration values, passed in as a parameter |
| `Checkers`, `Calculations`, `LegacyHelpers`, `Requests`, `GitHttp`, `GitLog` | one per source file |

How the model represents the environment:

- **Filesystem:** a set of existing paths.
- **Authentication:** a boolean.
- **`ALLOWED_PACK_TYPES`:** a set of strings. It belongs to a library that is
  not part of this model.

Python behaviours modelled as the code has them:

- **Regex anchor:** `re.match` with `$` also accepts one trailing `"\n"`, and
  the 100-character cap counts that newline.
- **`str.split`:** takes the leftmost non-overlapping separator, and
  `"".split(",")` is `[""]`.
- **`str.strip`:** uses Python's whitespace set.
- **`pathlib` joins:** an absolute name replaces the base.
- **`list.sort`:** is stable.

The two Smart HTTP routes reject an unknown pack type differently:

- `post_pack` aborts with 404 before the repository guard runs
  (`git_http.py:31-32`).
- `get_info_refs` runs the repository guard first and then aborts with 403
  on a missing or unknown `service` argument (`git_http.py:40-44`).

`GitHttp.UnknownPackTypeStatus` states the two side by side.

## Model

| member | source | states |
|---|---|---|
| Checkers.IsAllowedDir | git_web/helpers/checkers.py:16-25 | allowed exactly when no entry of the disallowed list equals the name; the legacy git_web/helpers.py lines 54-57 are the same code |
| Checkers.RunEnd | git_web/helpers/checkers.py:48 | the greedy `[…]+` run from a position stops at the first character outside the class, or at the end |
| Checkers.MatchesWhole | git_web/helpers/checkers.py:48 | the greedy run plus `$` anchor agrees with the pattern's meaning and accepts exactly the strings that are a non-empty run of the class, optionally followed by one "\n"; `is_valid_repo_name` uses the same match at line 58 |
| Checkers.IsCommitHash | git_web/helpers/checkers.py:41-48 | accepted exactly when the text is a non-empty run of ASCII letters and digits, optionally followed by one newline, with no length cap; the legacy git_web/helpers.py lines 133-134 are the same code |
| Checkers.IsValidRepoName | git_web/helpers/checkers.py:51-58 | accepted exactly when the text is a non-empty run of letters, digits, "-" and "_", optionally followed by one newline, and is at most 100 characters long; the legacy git_web/helpers.py lines 137-144 are the same code |
| Checkers.IsValidDirectoryName | git_web/helpers/checkers.py:61-68 | a valid repository name that is not in the disallowed list |
| Checkers.IsNameReserved | git_web/helpers/checkers.py:71-79 | reserved exactly when the name is one of RESERVED_NAMES |
| Checkers.ReservedNamesAreValidNames | git_web/helpers/constants.py:5-13 | each of the seven reserved names passes name validation; "login" and "logout" are reserved and "random" is not |
| Checkers.DoesPathContain | git_web/helpers/checkers.py:82-90 | true exactly when the name occurs somewhere in the last part of the path; the empty name always matches |
| Checkers.UrlScheme | git_web/helpers/checkers.py:35 | the scheme is the lower-cased text before the first colon when that text is letter-first with letters, digits, "+", "-" or "."; otherwise it is empty |
| Checkers.LowersToWordIsScheme | git_web/helpers/checkers.py:35-36 | text that lower-cases to an all-lowercase word such as "http" is a well-formed scheme |
| Checkers.IsValidCloneUrl | git_web/helpers/checkers.py:28-38 | valid exactly when there is a colon and the text before the first one lower-cases to "http" or "https"; the legacy git_web/helpers.py lines 121-125 are the same code |
| Checkers.FirstColonAt | git_web/helpers/checkers.py:35 | the scheme is cut at the first colon |
| Checkers.CloneUrlWithColonAt | git_web/helpers/checkers.py:35-37 | a URL whose first colon is at k is valid exactly when its first k characters lower-case to http or https |
| Checkers.ValidNameIsPlainPart | git_web/helpers/checkers.py:58 | a valid name is non-empty, is not "." or "..", and has no "/", ".", "\\", space or parenthesis, so it and the name plus ".git" are single path parts |
| Checkers.TrailingNewlineAccepted | git_web/helpers/checkers.py:58 | a name run followed by one newline is accepted exactly when it is under 100 characters; two newlines are rejected; the hash check also lets one newline through |
| Checkers.RepoNameExamplesAccepted | tests/helpers/test_checkers.py:30-33 | "my-repo", "valid_underscore" and "valid-1234" are valid |
| Checkers.LongestNameAccepted | tests/helpers/test_checkers.py:34 | a name of 100 "a"s is valid |
| Checkers.RepoNameExamplesRejected | tests/helpers/test_checkers.py:36-41 | names with a space, "$" or ".", the empty name, "()", "../breakout/repo-name" and 200 "a"s are invalid |
| Checkers.CommitHashExamples | tests/helpers/test_checkers.py:22-27 | "44Afff" and "42481a7" are hashes; "&& rm -rf .", "42481a7@" and "" are not |
| Checkers.HttpsCloneUrlAccepted | tests/helpers/test_checkers.py:13 | an https URL is a clone URL |
| Checkers.HttpCloneUrlAccepted | tests/helpers/test_checkers.py:15 | an http URL is a clone URL |
| Checkers.UpperCaseSchemeAccepted | git_web/helpers/checkers.py:35-36 | an upper-case "HTTPS" scheme is accepted, because the scheme is lower-cased |
| Checkers.CloneUrlExamplesRejected | tests/helpers/test_checkers.py:16-17 | an ftp URL and a URL with an empty scheme are not clone URLs |
| Checkers.SchemelessUrlsRejected | tests/helpers/test_checkers.py:18-20 | "//…", the empty URL and a relative path, none of which has a colon, are not clone URLs |
| Checkers.PathContainExamples | tests/helpers/test_checkers.py:62-71 | of the five example paths, exactly the three whose last part contains "hello" match |
| Calculations.CombineFullDir | git_web/helpers/calculations.py:40-47 | a plain name is appended to REPOS_PATH; an absolute name replaces REPOS_PATH |
| Calculations.CombineFullDirRepo | git_web/helpers/calculations.py:50-58 | plain names give REPOS_PATH, the directory and the name plus ".git"; the legacy git_web/helpers.py lines 78-83 are the same code |
| Calculations.UncheckedCombineEscapes | git_web/helpers/calculations.py:40-47 | the unchecked join keeps ".." and lets an absolute name escape REPOS_PATH; the checked join refuses both |
| Calculations.SafeCombineFullDir | git_web/helpers/calculations.py:112-123 | fails with the directory error exactly when the directory name is invalid; otherwise it returns REPOS_PATH plus that one part |
| Calculations.SafeCombineFullDirRepo | git_web/helpers/calculations.py:126-141 | the directory is checked first, then the repository name; it succeeds exactly when both are valid, with REPOS_PATH, the directory and the name plus ".git" |
| Calculations.CreateSshUri | git_web/helpers/calculations.py:96-104 | succeeds exactly when the path lies below REPOS_PATH; the URI is REPOS_SSH_BASE, ":" and `str` of the path relative to REPOS_PATH with every backslash turned into "/", so none is left after the colon; the legacy git_web/helpers.py lines 116-118 are the same code |
| Calculations.SshUriNamesRelativePath | git_web/helpers/calculations.py:103-104 | for any well-formed path below REPOS_PATH whose parts have no backslash, checked or not (".." included), the text after the colon parses back to exactly the parts below REPOS_PATH |
| Calculations.CheckedRelativeText | git_web/helpers/calculations.py:104 | for two valid names, the relative text is "dir/name.git" and the backslash replacement leaves it unchanged |
| Calculations.SshUriOfRepoPath | tests/helpers/test_calculations.py:48-54 | the URI of a checked repository path is REPOS_SSH_BASE, ":", the directory, "/", the name and ".git" |
| Calculations.NonBlobs | git_web/helpers/calculations.py:83-87 | the list the loop fills with non-blob entries holds exactly the tree's non-blob entries |
| Calculations.Blobs | git_web/helpers/calculations.py:83-87 | the list the loop fills with blob entries holds exactly the tree's blob entries |
| Calculations.PartitionMultiset | git_web/helpers/calculations.py:83-87 | the two lists the loop fills hold every entry of the tree, once |
| Calculations.InsertByFile | git_web/helpers/calculations.py:89-90 | one step of the stable sort adds exactly the new entry |
| Calculations.SortByFile | git_web/helpers/calculations.py:89-90 | sorting by file is a permutation of its input |
| Calculations.InsertKeepsSorted | git_web/helpers/calculations.py:89-90 | inserting into a list sorted by file keeps it sorted |
| Calculations.InsertSelect | git_web/helpers/calculations.py:89-90 | the inserted entry goes after every earlier entry of its group with an equal file |
| Calculations.SortByFileSorted | git_web/helpers/calculations.py:89-90 | the sort returns a list ordered by file |
| Calculations.SortByFileStable | git_web/helpers/calculations.py:89-90 | entries with equal files keep their input order |
| Calculations.SelectAppend | git_web/helpers/calculations.py:92 | extending one list with another keeps the order of each |
| Calculations.SelectNonBlobs | git_web/helpers/calculations.py:83-87 | the non-blob list keeps the input order of the non-blob entries with each file, and holds no blob |
| Calculations.SelectBlobs | git_web/helpers/calculations.py:83-87 | the blob list keeps the input order of the blob entries with each file, and holds no non-blob |
| Calculations.TreeOrderGroups | git_web/helpers/calculations.py:92 | every non-blob entry, tree or submodule, comes before every blob |
| Calculations.TreeOrderSortedGroups | git_web/helpers/calculations.py:89-92 | within each group the entries are ordered by file |
| Calculations.TreeOrderStable | git_web/helpers/calculations.py:89-92 | entries of one group with equal files keep their input order |
| Calculations.TreeOrder | git_web/helpers/calculations.py:80-93 | the folders-then-files order is a permutation of the tree: nothing is lost or added |
| Calculations.SortRepoTree | git_web/helpers/calculations.py:73-93 | the loop and the two sorts give folders first and then files, each group ordered by file, stable, and a permutation of the input; the legacy git_web/helpers.py lines 93-113 are the same code |
| Calculations.JoinNextPart | git_web/helpers/calculations.py:157 | joining the next part onto the parts before it gives the path up to that part, including a leading root |
| Calculations.PathToTreeComponents | git_web/helpers/calculations.py:144-158 | one component per part: the i-th is named after part i and carries the path up to it; only the last is the end; an empty path gives none |
| LegacyHelpers.LegacyDisallowedDirs | git_web/helpers.py:42 | splitting the variable on "," gives at least one name; the names have no comma and join back to the variable; an unset variable gives the empty name |
| LegacyHelpers.LegacyDefaultDisallowsOnlyEmpty | git_web/helpers.py:42-57 | with the variable unset, only the empty name is disallowed |
| LegacyHelpers.LegacyIsValidDirectoryName | git_web/helpers.py:147-154 | the legacy directory check is the repository-name rule, and equals the current check with an empty disallowed list |
| LegacyHelpers.LegacySafeCombineFullDir | git_web/helpers.py:157-168 | fails exactly when the directory is not a valid name; otherwise REPOS_PATH plus the directory; this equals the current function with no disallowed names |
| LegacyHelpers.LegacySafeCombineFullDirRepo | git_web/helpers.py:171-186 | directory error first, then the name error; otherwise REPOS_PATH, the directory and the name plus ".git" |
| LegacyHelpers.LegacyIgnoresDisallowedDirs | git_web/helpers.py:147-154 | a valid but disallowed directory is refused by the current checks and accepted by the legacy ones |
| LegacyHelpers.LegacyAgreesWithoutDisallowedDirs | git_web/helpers.py:157-186 | when every disallowed entry is an invalid name anyway, the legacy and current checked combinations agree |
| Requests.EnsureRepoDirPathValid | git_web/helpers/requests.py:10-17 | returns the path exactly when the directory name is valid and REPOS_PATH plus it exists; every failure is 404 |
| Requests.EnsureRepoPathValid | git_web/helpers/requests.py:20-27 | returns the path exactly when both names are valid and the combined path exists; every failure is 404 |
| Requests.InvalidNamesAreNotFound | git_web/helpers/requests.py:20-27 | an invalid directory or repository name is 404 whatever exists |
| Requests.EnsuredRepoPathStaysInside | git_web/helpers/requests.py:20-27 | a guarded path is the checked combination: two plain parts, neither "..", strictly below REPOS_PATH; its SSH URI is base:dir/name.git |
| GitHttp.PostPackRoute | git_web/views/git_http.py:27-34 | an unknown pack type is 404 whatever the repository; otherwise the bridge gets the guarded path, or the result is 404 |
| GitHttp.GetInfoRefsRoute | git_web/views/git_http.py:37-45 | the repository guard runs first (404); then a missing or unknown service is 403; otherwise the bridge gets the path and service |
| GitHttp.Handle | git_web/views/git_http.py:18-45 | a disabled service is 404 for every request, before authentication; an unauthenticated request gets the challenge; the bridge is reached only when enabled and authenticated, with the requested pack type |
| GitHttp.BridgeOnlyWithValidRepoAndPackType | git_web/views/git_http.py:27-45 | the bridge only sees an allowed pack type and an existing path that is the checked combination of the URL's names |
| GitHttp.ValidRequestReachesBridge | git_web/views/git_http.py:27-45 | every enabled, authenticated request with valid names, an existing repository and an allowed pack type reaches the bridge |
| GitHttp.UnknownPackTypeStatus | git_web/views/git_http.py:31-44 | the same unknown pack type is 404 on POST, and 403 on GET once the repository is found |
| GitLog.InvalidLineMessage | git_web/git/log.py:21 | the corrected message is the prefix followed by the line itself |
| GitLog.InvalidLineMessageInjective | git_web/git/log.py:21 | different lines give different corrected messages |
| GitLog.InvalidLineMessageAsWritten | git_web/git/log.py:21 | as written, the message is the prefix followed by the literal text "{stdout_line}", whatever the line |
| GitLog.AsWrittenMessageOmitsLine | git_web/git/log.py:21 | as written, two different rejected lines give the same message |
| GitLog.FormatLog | git_web/git/log.py:37 | a printed commit is its four fields, hash, author e-mail, date and subject, joined by ";;" |
| GitLog.ProcessLog | git_web/git/log.py:18-27 | accepted exactly when the line has four ";;"-separated fields; the parsed fields print back as the line; a rejection carries the corrected message, the prefix followed by the line (the code as written raises the literal placeholder text, see Findings) |
| GitLog.ProcessFormatRoundTrip | git_web/git/log.py:18-27 | parsing the printed line of a commit whose fields split cleanly gives that commit back, fields in order |
| GitLog.SubjectWithSeparatorRejected | git_web/git/log.py:19-21 | a subject that contains ";;" makes the commit's line rejected |
| GitLog.ProcessLogs | git_web/git/log.py:30-32 | one result per line of the stripped output, in order, and there is always at least one line |
| GitLog.EmptyLineRejected | git_web/git/log.py:19-21 | the empty line is one field, so it is rejected |
| GitLog.BlankOutputRejected | git_web/git/log.py:30-32 | whitespace-only output strips to one empty line and gives exactly one rejection |
| GitLog.FormattedOutputIsStripped | git_web/git/log.py:31 | output that does not begin or end with whitespace is unchanged by the strip |
| GitLog.SplitFormattedLines | git_web/git/log.py:31 | lines without a newline are recovered by the split on "\n" |
| GitLog.ProcessLogsRoundTrip | git_web/git/log.py:30-32 | the printed output of a non-empty list of well-formed commits parses back to those commits, in order |
| GitLog.ProcessLogsReprint | git_web/git/log.py:30-32 | when every line parses, reprinting the commits gives the stripped output back |
| Strings.Find | git_web/helpers/checkers.py:90 | the result is the leftmost occurrence of the substring, or none when it does not occur |
| Strings.Contains | git_web/helpers/checkers.py:90 | `sub in s` holds exactly when `sub` occurs at some index of `s` |
| Strings.Split | git_web/git/log.py:19 | a split always has at least one piece |
| Strings.SplitLeftmost | git_web/git/log.py:19 | each piece but the last stops exactly where the first separator after it begins, so the cut is always at the leftmost occurrence |
| Strings.JoinSplit | git_web/git/log.py:19 | joining the pieces of a split with the separator gives the text back |
| Strings.SplitPiecesFree | git_web/git/log.py:19 | no piece of a split contains the separator |
| Strings.SplitJoin | git_web/git/log.py:19 | splitting the join of cleanly separated pieces gives the pieces back |
| Strings.Strip | git_web/git/log.py:31 | the result is a slice of the input with only whitespace before and after it; it is empty exactly for whitespace-only text, and otherwise neither begins nor ends with whitespace; text without edge whitespace is unchanged |
| Strings.ReplaceChar | git_web/helpers/calculations.py:104 | each occurrence of the old character becomes the new one and every other character is kept in place; the old character is gone, and text without it is unchanged |
| Strings.LowerAscii | git_web/helpers/checkers.py:35 | ASCII upper-case letters become lower-case and other characters are kept |
| Paths.Parse | git_web/helpers/calculations.py:151 | the parts of a string are well formed, and absolute exactly when the string starts with "/" |
| Paths.Join | git_web/helpers/calculations.py:47 | a plain name is appended, an absolute string replaces the base, and otherwise the base is kept as a prefix |
| Paths.Name | git_web/helpers/checkers.py:90 | `path.name` is the last part, or "" for an empty or root-only path; for a well-formed path a non-empty name is a single path part |
| Paths.NameOfJoin | git_web/helpers/checkers.py:90 | the name of a base joined with a single name is that name |
| Paths.ToStr | git_web/helpers/calculations.py:104 | `str(path)` of a well-formed path parses back to the same path, the empty path included (as ".") |
| Paths.RelativeTo | git_web/helpers/calculations.py:104 | succeeds exactly when the base is a prefix of the path (and not an empty base under an absolute path); base plus the result is the path |
| Paths.PathLtIrreflexive | git_web/helpers/calculations.py:89 | no path sorts before itself |
| Paths.PathLtTransitive | git_web/helpers/calculations.py:89 | path order is transitive |
| Paths.PathLtTotal | git_web/helpers/calculations.py:89 | of two different paths, one sorts before the other |
| Strings.StrLtTotal | git_web/helpers/calculations.py:89 | of two different strings, one sorts before the other in code-point order |

## Left out

- The Smart HTTP pack exchange, meaning the response helpers behind
  `post_pack_response` and `get_info_refs_response`, is not part of this
  model. `GitHttp` stops at a response that names the path and pack type
  the bridge would be given.
- `ALLOWED_PACK_TYPES` is a parameter. Its library is not part of this model.
- GitHttp.Handle: basic authentication is a boolean. The 401 status and
  headers that `quart_auth` sends are not modelled.
- Quart views, templates, forms and `main.py` are left out. They are
  routing and I/O around the members modelled here.
- `find_repos`, `find_dirs` and `pathlib_delete_ro_file` are left out
  (filesystem enumeration and deletion). The filesystem is only the set of
  existing paths the guards consult.
- `get_config` and the pydantic settings loading are left out. Configuration
  values are passed in as a `Config` value; only the legacy split of
  `DISALLOWED_DIRS` is modelled.
- `run_get_logs` is left out: it runs `git log` as a subprocess and reads
  stderr. Only its output format is used, by `GitLog.FormatLog`.
- GitLog.ProcessLog: the commit date is kept as the text git printed.
  `datetime.fromisoformat`, and the `ValueError` it raises on a malformed
  date, are not modelled.
- GitLog.ProcessLog: a rejected line carries the corrected message
  `InvalidLineMessage(line)`, the prefix followed by the line. The code as
  written raises the literal placeholder text instead
  (`InvalidLineMessageAsWritten`); see Findings.
- Strings.Split: its own contract states only that there is at least one
  piece. Which pieces Python produces is stated by the lemmas
  `SplitLeftmost`, `SplitPiecesFree` and `JoinSplit`, which together fix
  the result (`SplitJoin`). Stated on the recursive function itself, these
  facts made the proofs that use `Split` run out of resource.
- GitLog.ProcessLogs: `map` is lazy and raises when an element is consumed.
  The model returns every result at once, as a sequence of `Result` values.
- Calculations.PathToTreeComponents: the generator is modelled as the full
  sequence it yields. Its input is a well-formed parts sequence, which every
  `pathlib` path is.
- Checkers.UrlScheme: `urlparse` is reduced to its scheme rule, the
  letter-first text before the first colon, lower-cased. Netloc, path,
  query and fragment parsing are not modelled. Neither is the cleaning
  `urlsplit` does first: it strips leading C0 control characters and
  spaces and removes tab, CR and LF anywhere. So `" https://x"` and
  `"ht\ttps://x"` are clone URLs for the program but not for the model.
- Paths.PathLt: paths are compared part by part in code-point order, as
  POSIX `pathlib` does. Case-insensitive Windows comparison and Windows
  separators are not modelled.
- TreeContent is reduced to its type and its file path, the only fields
  the ordering reads.

## Findings

| source | as written | input that shows it | evidently intended | confidence | as-written member | corrected member |
|---|---|---|---|---|---|---|
| git_web/git/log.py:21 | the `ValueError` message is a plain string with a `{stdout_line}` placeholder and no `f` prefix, so the braces are printed literally | the empty line and "a;;b;;c;;d;;e" are both rejected with the same message | the message names the rejected line | high; not executed | GitLog.AsWrittenMessageOmitsLine | GitLog.InvalidLineMessageInjective |
