/**
 * The request guards of `git_web/helpers/requests.py`: a directory or
 * repository named in a URL is turned into a path below REPOS_PATH, and a
 * bad name or a path that does not exist aborts the request with 404.
 * The filesystem is the set of paths that exist.
 */
module Requests {
  import opened Results
  import opened Paths
  import opened Settings
  import opened Checkers
  import opened Calculations

  /** `HTTPStatus.NOT_FOUND`. */
  const NotFound: nat := 404

  /** `ensure_repo_dir_path_valid`. */
  function EnsureRepoDirPathValid(cfg: Config, existing: set<Path>, repoDir: string): (r: Result<Path, nat>)
    ensures r.Err? ==> r.error == NotFound
    ensures r.Ok? <==> IsValidDirectoryName(repoDir, cfg.disallowedDirs) && cfg.reposPath + [repoDir] in existing
    ensures r.Ok? ==> r.value == cfg.reposPath + [repoDir] && r.value in existing
  {
    match SafeCombineFullDir(cfg, repoDir)
    case Err(_) => Err(NotFound)
    case Ok(repoPath) => if repoPath !in existing then Err(NotFound) else Ok(repoPath)
  }

  /** `ensure_repo_path_valid`. */
  function EnsureRepoPathValid(cfg: Config, existing: set<Path>, repoDir: string, repoName: string): (r: Result<Path, nat>)
    ensures r.Err? ==> r.error == NotFound
    ensures r.Ok? <==> IsValidDirectoryName(repoDir, cfg.disallowedDirs) && IsValidRepoName(repoName)
                       && cfg.reposPath + [repoDir, repoName + ".git"] in existing
    ensures r.Ok? ==> r.value == cfg.reposPath + [repoDir, repoName + ".git"] && r.value in existing
  {
    match SafeCombineFullDirRepo(cfg, repoDir, repoName)
    case Err(_) => Err(NotFound)
    case Ok(repoPath) => if repoPath !in existing then Err(NotFound) else Ok(repoPath)
  }

  /**
   * A name check failure is a 404 whatever exists on disk, so a request
   * cannot tell an invalid name from a missing repository.
   */
  lemma InvalidNamesAreNotFound(cfg: Config, existing: set<Path>, repoDir: string, repoName: string)
    requires !IsValidDirectoryName(repoDir, cfg.disallowedDirs) || !IsValidRepoName(repoName)
    ensures EnsureRepoPathValid(cfg, existing, repoDir, repoName) == Err(NotFound)
    ensures !IsValidDirectoryName(repoDir, cfg.disallowedDirs) ==> EnsureRepoDirPathValid(cfg, existing, repoDir) == Err(NotFound)
  {
  }

  /**
   * A guarded path is always the checked combination of the two names and
   * lies strictly inside REPOS_PATH: two plain parts below it, neither of
   * them ".." nor "."; it is also the path the SSH URI is formed from.
   */
  lemma EnsuredRepoPathStaysInside(cfg: Config, existing: set<Path>, repoDir: string, repoName: string)
    requires EnsureRepoPathValid(cfg, existing, repoDir, repoName).Ok?
    ensures var p := EnsureRepoPathValid(cfg, existing, repoDir, repoName).value;
            p == SafeCombineFullDirRepo(cfg, repoDir, repoName).value
            && cfg.reposPath < p && |p| == |cfg.reposPath| + 2
            && forall i :: |cfg.reposPath| <= i < |p| ==> IsName(p[i]) && p[i] != ".."
    ensures CreateSshUri(cfg, EnsureRepoPathValid(cfg, existing, repoDir, repoName).value)
            == Ok(cfg.reposSshBase + ":" + (repoDir + "/" + repoName + ".git"))
  {
    ValidNameIsPlainPart(repoDir);
    ValidNameIsPlainPart(repoName);
    var p := EnsureRepoPathValid(cfg, existing, repoDir, repoName).value;
    assert p[|cfg.reposPath|] == repoDir && p[|cfg.reposPath| + 1] == repoName + ".git";
    assert repoName + ".git" != ".." by {
      assert |repoName + ".git"| >= 5;
    }
    SshUriOfRepoPath(cfg, repoDir, repoName);
  }
}
