/**
 * The older monolithic `git_web/helpers.py`. Its `combine_*`,
 * `sort_repo_tree`, `create_ssh_uri`, `is_valid_clone_url`,
 * `is_commit_hash`, `is_valid_repo_name` and `is_allowed_dir` are
 * textually the same as in `checkers.py` and `calculations.py` and are the
 * members of those modules. What differs is modelled here: its
 * `is_valid_directory_name` never consults DISALLOWED_DIRS, so neither do
 * its checked combinations, and its configuration reads DISALLOWED_DIRS
 * by splitting one environment string on commas.
 */
module LegacyHelpers {
  import opened Results
  import opened Strings
  import opened Paths
  import opened Settings
  import opened Checkers
  import opened Calculations

  /**
   * `os.environ.get("DISALLOWED_DIRS", "").split(",")`: the comma-separated
   * list, where an unset variable reads as the empty string.
   */
  function LegacyDisallowedDirs(env: Option<string>): (dirs: seq<string>)
    ensures |dirs| >= 1
    ensures env.Some? ==> JoinWith(dirs, ",") == env.value
    ensures env.Some? ==> forall i :: 0 <= i < |dirs| ==> ',' !in dirs[i]
    ensures env.None? ==> dirs == [""]
  {
    var text := if env.Some? then env.value else "";
    JoinSplit(text, ",");
    SplitPiecesFree(text, ",");
    assert forall i :: 0 <= i < |Split(text, ",")| ==> ',' !in Split(text, ",")[i] by {
      forall i | 0 <= i < |Split(text, ",")| ensures ',' !in Split(text, ",")[i] {
        CharOccurrence(Split(text, ",")[i], ',');
      }
    }
    Split(text, ",")
  }

  /** `is_valid_directory_name` of `helpers.py`: only the repository-name rule. */
  function LegacyIsValidDirectoryName(name: string): (r: bool)
    ensures r <==> RunWithOptionalNewline(name, NameCharacter) && |name| <= MaxNameLength
    ensures r <==> IsValidDirectoryName(name, [])
  {
    IsValidRepoName(name)
  }

  /** `safe_combine_full_dir` of `helpers.py`. */
  function LegacySafeCombineFullDir(cfg: Config, repoDir: string): (r: Result<Path, NameError>)
    ensures r.Err? <==> !IsValidRepoName(repoDir)
    ensures r.Err? ==> r.error == InvalidRepoDir
    ensures r.Ok? ==> r.value == cfg.reposPath + [repoDir]
    ensures r == SafeCombineFullDir(cfg.(disallowedDirs := []), repoDir)
  {
    if !LegacyIsValidDirectoryName(repoDir) then Err(InvalidRepoDir)
    else
      ValidNameIsPlainPart(repoDir);
      Ok(CombineFullDir(cfg, repoDir))
  }

  /** `safe_combine_full_dir_repo` of `helpers.py`: directory first, then name. */
  function LegacySafeCombineFullDirRepo(cfg: Config, repoDir: string, repoName: string): (r: Result<Path, NameError>)
    ensures !IsValidRepoName(repoDir) ==> r == Err(InvalidRepoDir)
    ensures IsValidRepoName(repoDir) && !IsValidRepoName(repoName) ==> r == Err(InvalidRepoName)
    ensures r.Ok? ==> r.value == cfg.reposPath + [repoDir, repoName + ".git"]
    ensures r == SafeCombineFullDirRepo(cfg.(disallowedDirs := []), repoDir, repoName)
  {
    if !LegacyIsValidDirectoryName(repoDir) then Err(InvalidRepoDir)
    else if !IsValidRepoName(repoName) then Err(InvalidRepoName)
    else
      ValidNameIsPlainPart(repoDir);
      ValidNameIsPlainPart(repoName);
      Ok(CombineFullDirRepo(cfg, repoDir, repoName))
  }

  /**
   * A valid name that the configuration disallows is refused by the current
   * checked combination and accepted by the legacy one.
   */
  lemma LegacyIgnoresDisallowedDirs(cfg: Config, repoDir: string, repoName: string)
    requires IsValidRepoName(repoDir) && IsValidRepoName(repoName)
    requires repoDir in cfg.disallowedDirs
    ensures SafeCombineFullDirRepo(cfg, repoDir, repoName) == Err(InvalidRepoDir)
    ensures LegacySafeCombineFullDirRepo(cfg, repoDir, repoName).Ok?
    ensures SafeCombineFullDir(cfg, repoDir).Err? && LegacySafeCombineFullDir(cfg, repoDir).Ok?
  {
    var i :| 0 <= i < |cfg.disallowedDirs| && cfg.disallowedDirs[i] == repoDir;
    assert !IsAllowedDir(repoDir, cfg.disallowedDirs);
  }

  /** When no name is disallowed, the legacy and current checks agree. */
  lemma LegacyAgreesWithoutDisallowedDirs(cfg: Config, repoDir: string, repoName: string)
    requires forall i :: 0 <= i < |cfg.disallowedDirs| ==> !IsValidRepoName(cfg.disallowedDirs[i])
    ensures LegacySafeCombineFullDir(cfg, repoDir) == SafeCombineFullDir(cfg, repoDir)
    ensures LegacySafeCombineFullDirRepo(cfg, repoDir, repoName) == SafeCombineFullDirRepo(cfg, repoDir, repoName)
  {
    assert IsValidRepoName(repoDir) ==> IsAllowedDir(repoDir, cfg.disallowedDirs);
  }

  /**
   * With DISALLOWED_DIRS unset, the legacy configuration disallows exactly
   * the empty name.
   */
  lemma LegacyDefaultDisallowsOnlyEmpty(name: string)
    ensures IsAllowedDir(name, LegacyDisallowedDirs(None)) <==> name != ""
  {
  }
}
