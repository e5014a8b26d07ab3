/**
 * The path and tree helpers of `git_web/helpers/calculations.py`: joining
 * directory and repository names onto REPOS_PATH (unchecked and checked),
 * the SSH clone URI, the folders-then-files ordering of a repository tree
 * and the breadcrumb components of a tree path.
 */
module Calculations {
  import opened Results
  import opened Strings
  import opened Paths
  import opened Settings
  import opened Checkers

  /** Why a checked path combination was refused (the `ValueError` messages). */
  datatype NameError = InvalidRepoDir | InvalidRepoName

  /** `combine_full_dir`: `REPOS_PATH / repo_dir`, with no check on the name. */
  function CombineFullDir(cfg: Config, repoDir: string): (p: Path)
    ensures IsName(repoDir) ==> p == cfg.reposPath + [repoDir]
    ensures |repoDir| > 0 && repoDir[0] == '/' ==> p == Parse(repoDir)
  {
    Join(cfg.reposPath, repoDir)
  }

  /** `combine_full_dir_repo`: `REPOS_PATH / repo_dir / (repo_name + ".git")`, with no checks. */
  function CombineFullDirRepo(cfg: Config, repoDir: string, repoName: string): (p: Path)
    ensures IsName(repoDir) && IsName(repoName + ".git")
            ==> p == cfg.reposPath + [repoDir, repoName + ".git"]
  {
    Join(CombineFullDir(cfg, repoDir), repoName + ".git")
  }

  /** `safe_combine_full_dir`: the directory name is validated first. */
  function SafeCombineFullDir(cfg: Config, repoDir: string): (r: Result<Path, NameError>)
    ensures r.Err? <==> !IsValidDirectoryName(repoDir, cfg.disallowedDirs)
    ensures r.Err? ==> r.error == InvalidRepoDir
    ensures r.Ok? ==> r.value == cfg.reposPath + [repoDir]
  {
    if !IsValidDirectoryName(repoDir, cfg.disallowedDirs) then Err(InvalidRepoDir)
    else
      ValidNameIsPlainPart(repoDir);
      Ok(CombineFullDir(cfg, repoDir))
  }

  /**
   * `safe_combine_full_dir_repo`: the directory name is checked before the
   * repository name; a success is exactly one directory and one `.git`
   * entry below REPOS_PATH.
   */
  function SafeCombineFullDirRepo(cfg: Config, repoDir: string, repoName: string): (r: Result<Path, NameError>)
    ensures !IsValidDirectoryName(repoDir, cfg.disallowedDirs) ==> r == Err(InvalidRepoDir)
    ensures IsValidDirectoryName(repoDir, cfg.disallowedDirs) && !IsValidRepoName(repoName)
            ==> r == Err(InvalidRepoName)
    ensures r.Ok? <==> IsValidDirectoryName(repoDir, cfg.disallowedDirs) && IsValidRepoName(repoName)
    ensures r.Ok? ==> r.value == cfg.reposPath + [repoDir, repoName + ".git"]
  {
    if !IsValidDirectoryName(repoDir, cfg.disallowedDirs) then Err(InvalidRepoDir)
    else if !IsValidRepoName(repoName) then Err(InvalidRepoName)
    else
      ValidNameIsPlainPart(repoDir);
      ValidNameIsPlainPart(repoName);
      Ok(CombineFullDirRepo(cfg, repoDir, repoName))
  }

  /**
   * The unchecked join keeps ".." and lets an absolute name replace
   * REPOS_PATH; the checked join refuses both.
   */
  lemma UncheckedCombineEscapes(cfg: Config, absolute: string)
    requires |absolute| > 0 && absolute[0] == '/'
    ensures CombineFullDir(cfg, "..") == cfg.reposPath + [".."]
    ensures CombineFullDir(cfg, absolute) == Parse(absolute)
    ensures SafeCombineFullDir(cfg, "..").Err? && SafeCombineFullDir(cfg, absolute).Err?
  {
    assert ".."[0] == '.';
    assert absolute[0] == '/';
  }

  /**
   * `create_ssh_uri`: REPOS_SSH_BASE, a colon and the path relative to
   * REPOS_PATH with backslashes turned into slashes; fails when the path is
   * not below REPOS_PATH.
   */
  function CreateSshUri(cfg: Config, repoPath: Path): (r: Result<string, RelativeError>)
    ensures r.Ok? <==> cfg.reposPath <= repoPath && !(cfg.reposPath == [] && IsAbsolute(repoPath))
    ensures r.Ok? ==> r.value == cfg.reposSshBase + ":" + ReplaceChar(ToStr(repoPath[|cfg.reposPath|..]), '\\', '/')
    ensures r.Ok? ==> '\\' !in r.value[|cfg.reposSshBase| + 1..]
  {
    match RelativeTo(repoPath, cfg.reposPath)
    case Err(e) => Err(e)
    case Ok(rel) =>
      var uri := cfg.reposSshBase + ":" + ReplaceChar(ToStr(rel), '\\', '/');
      assert uri[|cfg.reposSshBase| + 1..] == ReplaceChar(ToStr(rel), '\\', '/');
      Ok(uri)
  }

  /**
   * The text after the colon names the repository's place below REPOS_PATH:
   * when no part holds a backslash, it parses back to the relative path,
   * whether or not the names were checked (".." parts included).
   */
  lemma SshUriNamesRelativePath(cfg: Config, repoPath: Path)
    requires WellFormed(repoPath) && CreateSshUri(cfg, repoPath).Ok?
    requires forall i :: 0 <= i < |repoPath| ==> '\\' !in repoPath[i]
    ensures cfg.reposSshBase + ":" <= CreateSshUri(cfg, repoPath).value
    ensures Parse(CreateSshUri(cfg, repoPath).value[|cfg.reposSshBase| + 1..]) == repoPath[|cfg.reposPath|..]
  {
    var rel := repoPath[|cfg.reposPath|..];
    RelativeTextParses(rel);
    var uri := CreateSshUri(cfg, repoPath).value;
    assert uri[|cfg.reposSshBase| + 1..] == ToStr(rel);
  }

  /** A relative path of names without backslashes prints as text that parses back to it. */
  lemma RelativeTextParses(rel: Path)
    requires forall i :: 0 <= i < |rel| ==> IsName(rel[i]) && '\\' !in rel[i]
    ensures ReplaceChar(ToStr(rel), '\\', '/') == ToStr(rel)
    ensures Parse(ToStr(rel)) == rel
  {
    if rel != [] {
      assert !IsRoot(rel[0]);
      CharNotInJoin(rel, "/", '\\');
    }
  }

  /** The relative text of a checked directory and repository name. */
  lemma CheckedRelativeText(repoDir: string, repoName: string)
    requires IsValidRepoName(repoDir) && IsValidRepoName(repoName)
    ensures ReplaceChar(ToStr([repoDir, repoName + ".git"]), '\\', '/') == repoDir + "/" + repoName + ".git"
  {
    ValidNameIsPlainPart(repoDir);
    ValidNameIsPlainPart(repoName);
    var git := repoName + ".git";
    var rel := [repoDir, git];
    assert rel[1..] == [git];
    assert JoinWith(rel[1..], "/") == git;
    assert ToStr(rel) == repoDir + "/" + git;
    assert '\\' !in ".git";
    CharNotInJoin(rel, "/", '\\');
  }

  /** The SSH URI of a checked repository path is `base:dir/name.git`. */
  lemma SshUriOfRepoPath(cfg: Config, repoDir: string, repoName: string)
    requires SafeCombineFullDirRepo(cfg, repoDir, repoName).Ok?
    ensures CreateSshUri(cfg, SafeCombineFullDirRepo(cfg, repoDir, repoName).value)
            == Ok(cfg.reposSshBase + ":" + (repoDir + "/" + repoName + ".git"))
  {
    var p := SafeCombineFullDirRepo(cfg, repoDir, repoName).value;
    var rel := [repoDir, repoName + ".git"];
    assert p == cfg.reposPath + rel;
    assert p[|cfg.reposPath|..] == rel;
    CheckedRelativeText(repoDir, repoName);
    var text := repoDir + "/" + repoName + ".git";
    assert CreateSshUri(cfg, p).Ok?;
    assert CreateSshUri(cfg, p).value == cfg.reposSshBase + ":" + text;
  }

  /** `TreeContentTypes`: what a tree entry points at. */
  datatype EntryType = Blob | Tree | Commit

  /** A `TreeContent` reduced to the two fields the ordering reads. */
  datatype TreeEntry = TreeEntry(entryType: EntryType, file: Path)

  predicate IsBlob(e: TreeEntry) { e.entryType == Blob }

  /** The non-blob entries, in input order. */
  function NonBlobs(s: seq<TreeEntry>): (r: seq<TreeEntry>)
    ensures forall i :: 0 <= i < |r| ==> !IsBlob(r[i])
  {
    if s == [] then []
    else NonBlobs(s[..|s| - 1]) + (if IsBlob(s[|s| - 1]) then [] else [s[|s| - 1]])
  }

  /** The blob entries, in input order. */
  function Blobs(s: seq<TreeEntry>): (r: seq<TreeEntry>)
    ensures forall i :: 0 <= i < |r| ==> IsBlob(r[i])
  {
    if s == [] then []
    else Blobs(s[..|s| - 1]) + (if IsBlob(s[|s| - 1]) then [s[|s| - 1]] else [])
  }

  lemma {:induction false} PartitionMultiset(s: seq<TreeEntry>)
    ensures multiset(NonBlobs(s)) + multiset(Blobs(s)) == multiset(s)
    decreases |s|
  {
    if s != [] {
      var init, last := s[..|s| - 1], s[|s| - 1];
      PartitionMultiset(init);
      assert s == init + [last];
      assert multiset(s) == multiset(init) + multiset{last};
      if IsBlob(last) {
        assert NonBlobs(s) == NonBlobs(init) && Blobs(s) == Blobs(init) + [last];
      } else {
        assert NonBlobs(s) == NonBlobs(init) + [last] && Blobs(s) == Blobs(init);
      }
    }
  }

  /** The entries of one group (blobs or not) whose file is `k`, in order. */
  function Select(s: seq<TreeEntry>, blob: bool, k: Path): seq<TreeEntry>
  {
    if s == [] then []
    else
      var last := s[|s| - 1];
      Select(s[..|s| - 1], blob, k) + (if IsBlob(last) == blob && last.file == k then [last] else [])
  }

  /** What one entry contributes to `Select`. */
  function SelectOne(e: TreeEntry, blob: bool, k: Path): seq<TreeEntry>
  {
    if IsBlob(e) == blob && e.file == k then [e] else []
  }

  lemma SelectSnoc(s: seq<TreeEntry>, e: TreeEntry, blob: bool, k: Path)
    ensures Select(s + [e], blob, k) == Select(s, blob, k) + SelectOne(e, blob, k)
  {
    assert (s + [e])[..|s + [e]| - 1] == s;
  }

  lemma {:induction false} SelectAppend(a: seq<TreeEntry>, b: seq<TreeEntry>, blob: bool, k: Path)
    ensures Select(a + b, blob, k) == Select(a, blob, k) + Select(b, blob, k)
    decreases |b|
  {
    if b == [] {
      assert a + b == a;
    } else {
      var init, last := b[..|b| - 1], b[|b| - 1];
      assert b == init + [last];
      assert a + b == (a + init) + [last];
      SelectAppend(a, init, blob, k);
      SelectSnoc(a + init, last, blob, k);
      SelectSnoc(init, last, blob, k);
    }
  }

  /** Taking the non-blobs keeps the order of the non-blob entries with each file. */
  lemma {:induction false} SelectNonBlobs(s: seq<TreeEntry>, blob: bool, k: Path)
    ensures Select(NonBlobs(s), blob, k) == if blob then [] else Select(s, blob, k)
    decreases |s|
  {
    if s != [] {
      var init, last := s[..|s| - 1], s[|s| - 1];
      SelectNonBlobs(init, blob, k);
      assert s == init + [last];
      SelectSnoc(init, last, blob, k);
      if IsBlob(last) {
        assert NonBlobs(s) == NonBlobs(init);
        if !blob {
          assert SelectOne(last, blob, k) == [];
        }
      } else {
        assert NonBlobs(s) == NonBlobs(init) + [last];
        SelectSnoc(NonBlobs(init), last, blob, k);
        if blob {
          assert SelectOne(last, blob, k) == [];
        }
      }
    }
  }

  /** Taking the blobs keeps the order of the blob entries with each file. */
  lemma {:induction false} SelectBlobs(s: seq<TreeEntry>, blob: bool, k: Path)
    ensures Select(Blobs(s), blob, k) == if blob then Select(s, blob, k) else []
    decreases |s|
  {
    if s != [] {
      var init, last := s[..|s| - 1], s[|s| - 1];
      SelectBlobs(init, blob, k);
      assert s == init + [last];
      SelectSnoc(init, last, blob, k);
      if IsBlob(last) {
        assert Blobs(s) == Blobs(init) + [last];
        SelectSnoc(Blobs(init), last, blob, k);
        if !blob {
          assert SelectOne(last, blob, k) == [];
        }
      } else {
        assert Blobs(s) == Blobs(init);
        if blob {
          assert SelectOne(last, blob, k) == [];
        }
      }
    }
  }

  /** Non-decreasing in `file`: no later entry sorts before an earlier one. */
  predicate SortedByFile(s: seq<TreeEntry>)
  {
    forall i, j :: 0 <= i < j < |s| ==> !PathLt(s[j].file, s[i].file)
  }

  /**
   * Inserts `x` after every entry whose file does not sort after x's: the
   * step of a stable sort that has already placed the earlier entries.
   */
  function InsertByFile(t: seq<TreeEntry>, x: TreeEntry): (r: seq<TreeEntry>)
    ensures multiset(r) == multiset(t) + multiset{x}
  {
    if t == [] || !PathLt(x.file, t[|t| - 1].file) then t + [x]
    else
      var init := t[..|t| - 1];
      assert t == init + [t[|t| - 1]];
      InsertByFile(init, x) + [t[|t| - 1]]
  }

  /** `list.sort(key=lambda x: x.file)`: a stable sort on the file path. */
  function SortByFile(s: seq<TreeEntry>): (r: seq<TreeEntry>)
    ensures multiset(r) == multiset(s)
  {
    if s == [] then []
    else
      assert s == s[..|s| - 1] + [s[|s| - 1]];
      InsertByFile(SortByFile(s[..|s| - 1]), s[|s| - 1])
  }

  lemma {:induction false} InsertKeepsSorted(t: seq<TreeEntry>, x: TreeEntry)
    requires SortedByFile(t)
    ensures SortedByFile(InsertByFile(t, x))
    decreases |t|
  {
    if t == [] {
    } else if !PathLt(x.file, t[|t| - 1].file) {
      var last := t[|t| - 1];
      forall i | 0 <= i < |t| ensures !PathLt(x.file, t[i].file) {
        if PathLt(x.file, t[i].file) {
          if t[i].file == last.file {
          } else {
            PathLtTotal(t[i].file, last.file);
            PathLtTransitive(x.file, t[i].file, last.file);
          }
        }
      }
    } else {
      var init, last := t[..|t| - 1], t[|t| - 1];
      InsertKeepsSorted(init, x);
      var r := InsertByFile(init, x);
      forall e | e in r ensures !PathLt(last.file, e.file) {
        assert e in multiset(r);
        if e == x {
          if PathLt(last.file, x.file) {
            PathLtTransitive(x.file, last.file, x.file);
            PathLtIrreflexive(x.file);
          }
        } else {
          assert e in init;
        }
      }
    }
  }

  /** Two appended pieces of which one is empty may be appended in either order. */
  lemma SwapPastEmpty(a: seq<TreeEntry>, b: seq<TreeEntry>, c: seq<TreeEntry>)
    requires b == [] || c == []
    ensures (a + b) + c == (a + c) + b
  {
  }

  /** Inserting before a last entry with a later file: that entry stays last. */
  lemma InsertSelectPastLast(init: seq<TreeEntry>, last: TreeEntry, x: TreeEntry, blob: bool, k: Path)
    requires PathLt(x.file, last.file)
    requires Select(InsertByFile(init, x), blob, k) == Select(init, blob, k) + SelectOne(x, blob, k)
    ensures Select(InsertByFile(init + [last], x), blob, k) == Select(init + [last], blob, k) + SelectOne(x, blob, k)
  {
    var t := init + [last];
    assert t[..|t| - 1] == init;
    var shorter := InsertByFile(init, x);
    assert InsertByFile(t, x) == shorter + [last];
    SelectSnoc(shorter, last, blob, k);
    SelectSnoc(init, last, blob, k);
    PathLtIrreflexive(x.file);
    SwapPastEmpty(Select(init, blob, k), SelectOne(x, blob, k), SelectOne(last, blob, k));
  }

  lemma {:induction false} InsertSelect(t: seq<TreeEntry>, x: TreeEntry, blob: bool, k: Path)
    ensures Select(InsertByFile(t, x), blob, k) == Select(t, blob, k) + SelectOne(x, blob, k)
    decreases |t|
  {
    if t == [] || !PathLt(x.file, t[|t| - 1].file) {
      assert InsertByFile(t, x) == t + [x];
      SelectSnoc(t, x, blob, k);
    } else {
      var init, last := t[..|t| - 1], t[|t| - 1];
      InsertSelect(init, x, blob, k);
      InsertSelectPastLast(init, last, x, blob, k);
      assert t == init + [last];
    }
  }

  /** The sort's output is ordered by file. */
  lemma {:induction false} SortByFileSorted(s: seq<TreeEntry>)
    ensures SortedByFile(SortByFile(s))
    decreases |s|
  {
    if s != [] {
      SortByFileSorted(s[..|s| - 1]);
      InsertKeepsSorted(SortByFile(s[..|s| - 1]), s[|s| - 1]);
    }
  }

  /** The sort is stable: entries of one group with equal files keep their input order. */
  lemma {:induction false} SortByFileStable(s: seq<TreeEntry>, blob: bool, k: Path)
    ensures Select(SortByFile(s), blob, k) == Select(s, blob, k)
    decreases |s|
  {
    if s != [] {
      var init, last := s[..|s| - 1], s[|s| - 1];
      SortByFileStable(init, blob, k);
      var sorted := SortByFile(init);
      assert SortByFile(s) == InsertByFile(sorted, last);
      InsertSelect(sorted, last, blob, k);
      assert s == init + [last];
      SelectSnoc(init, last, blob, k);
    }
  }

  /** Every entry the sort returns was in its input. */
  lemma SortByFileMembers(s: seq<TreeEntry>, e: TreeEntry)
    requires e in SortByFile(s)
    ensures e in s
  {
    assert e in multiset(SortByFile(s));
  }

  /**
   * The folders-then-files order the tree view shows: the non-blob entries
   * sorted by file, then the blob entries sorted by file; nothing is lost
   * or added.
   */
  function TreeOrder(repoTree: seq<TreeEntry>): (r: seq<TreeEntry>)
    ensures multiset(r) == multiset(repoTree)
  {
    PartitionMultiset(repoTree);
    SortByFile(NonBlobs(repoTree)) + SortByFile(Blobs(repoTree))
  }

  /** Every non-blob entry comes before every blob entry. */
  lemma TreeOrderGroups(repoTree: seq<TreeEntry>)
    ensures var r := TreeOrder(repoTree);
            forall i, j :: 0 <= i < j < |r| && IsBlob(r[i]) ==> IsBlob(r[j])
  {
    var trees, blobs := SortByFile(NonBlobs(repoTree)), SortByFile(Blobs(repoTree));
    var r := trees + blobs;
    forall i, j | 0 <= i < j < |r| && IsBlob(r[i]) ensures IsBlob(r[j]) {
      if j < |trees| {
        SortByFileMembers(NonBlobs(repoTree), r[i]);
      } else {
        SortByFileMembers(Blobs(repoTree), r[j]);
      }
    }
  }

  /** Within each group, entries are ordered by file. */
  lemma TreeOrderSortedGroups(repoTree: seq<TreeEntry>)
    ensures var r := TreeOrder(repoTree);
            forall i, j :: 0 <= i < j < |r| && IsBlob(r[i]) == IsBlob(r[j]) ==> !PathLt(r[j].file, r[i].file)
  {
    var trees, blobs := SortByFile(NonBlobs(repoTree)), SortByFile(Blobs(repoTree));
    var r := trees + blobs;
    SortByFileSorted(NonBlobs(repoTree));
    SortByFileSorted(Blobs(repoTree));
    var m := |trees|;
    forall i, j | 0 <= i < j < |r| && IsBlob(r[i]) == IsBlob(r[j])
      ensures !PathLt(r[j].file, r[i].file)
    {
      if j < m {
        assert r[i] == trees[i] && r[j] == trees[j];
      } else if i >= m {
        assert r[i] == blobs[i - m] && r[j] == blobs[j - m];
      } else {
        SortByFileMembers(NonBlobs(repoTree), r[i]);
        SortByFileMembers(Blobs(repoTree), r[j]);
      }
    }
  }

  /** Entries of one group with the same file keep their input order. */
  lemma TreeOrderStable(repoTree: seq<TreeEntry>, blob: bool, k: Path)
    ensures Select(TreeOrder(repoTree), blob, k) == Select(repoTree, blob, k)
  {
    var trees, blobs := SortByFile(NonBlobs(repoTree)), SortByFile(Blobs(repoTree));
    SelectAppend(trees, blobs, blob, k);
    SortByFileStable(NonBlobs(repoTree), blob, k);
    SortByFileStable(Blobs(repoTree), blob, k);
    SelectNonBlobs(repoTree, blob, k);
    SelectBlobs(repoTree, blob, k);
    if blob {
      assert Select(trees, blob, k) == [];
    } else {
      assert Select(blobs, blob, k) == [];
    }
  }

  /**
   * `sort_repo_tree`: every non-blob entry (trees and submodules) before
   * every blob, each group ordered by file, equal files in input order, and
   * nothing lost or added.
   */
  method SortRepoTree(repoTree: seq<TreeEntry>) returns (sorted: seq<TreeEntry>)
    ensures sorted == TreeOrder(repoTree)
    ensures multiset(sorted) == multiset(repoTree)
    ensures forall i, j :: 0 <= i < j < |sorted| && IsBlob(sorted[i]) ==> IsBlob(sorted[j])
    ensures forall i, j :: 0 <= i < j < |sorted| && IsBlob(sorted[i]) == IsBlob(sorted[j])
              ==> !PathLt(sorted[j].file, sorted[i].file)
    ensures forall blob, k :: Select(sorted, blob, k) == Select(repoTree, blob, k)
  {
    var trees: seq<TreeEntry> := [];
    var blobs: seq<TreeEntry> := [];
    for n := 0 to |repoTree|
      invariant trees == NonBlobs(repoTree[..n])
      invariant blobs == Blobs(repoTree[..n])
    {
      var obj := repoTree[n];
      assert repoTree[..n + 1][..n] == repoTree[..n];
      if obj.entryType == Blob {
        blobs := blobs + [obj];
      } else {
        trees := trees + [obj];
      }
    }
    assert repoTree[..|repoTree|] == repoTree;
    trees := SortByFile(trees);
    blobs := SortByFile(blobs);
    sorted := trees + blobs;
    TreeOrderGroups(repoTree);
    TreeOrderSortedGroups(repoTree);
    forall blob, k ensures Select(sorted, blob, k) == Select(repoTree, blob, k) {
      TreeOrderStable(repoTree, blob, k);
    }
  }

  /** `PathComponent`: one breadcrumb of a tree path. */
  datatype PathComponent = PathComponent(fullPath: Path, name: string, isEnd: bool)

  /** Joining a well-formed path's next part onto the parts before it. */
  lemma JoinNextPart(path: Path, i: nat)
    requires WellFormed(path) && i < |path|
    ensures Join(path[..i], path[i]) == path[..i + 1]
  {
    if !IsName(path[i]) {
      ParseRoot(path[i]);
    }
  }

  /**
   * `path_to_tree_components`: one component per part; the i-th is named
   * after part i, carries the path up to and including it, and only the
   * last is marked as the end.
   */
  method PathToTreeComponents(path: Path) returns (components: seq<PathComponent>)
    requires WellFormed(path)
    ensures |components| == |path|
    ensures forall i :: 0 <= i < |path| ==> components[i].name == path[i]
    ensures forall i :: 0 <= i < |path| ==> components[i].fullPath == path[..i + 1]
    ensures forall i :: 0 <= i < |path| ==> (components[i].isEnd <==> i == |path| - 1)
  {
    var parts := path;
    var maxI := |parts| - 1;
    var currPath: Path := [];
    components := [];
    for i := 0 to |parts|
      invariant currPath == parts[..i]
      invariant |components| == i
      invariant forall j :: 0 <= j < i ==> components[j] == PathComponent(parts[..j + 1], parts[j], j == maxI)
    {
      var part := parts[i];
      var isEnd := maxI == i;
      JoinNextPart(parts, i);
      currPath := Join(currPath, part);
      components := components + [PathComponent(currPath, part, isEnd)];
    }
  }
}
