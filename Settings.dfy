/**
 * The configuration values the helpers read through `get_config()`, passed
 * in explicitly instead of being loaded from the environment.
 */
module Settings {
  import opened Paths

  datatype Config = Config(
    reposPath: Path,            // REPOS_PATH
    reposSshBase: string,       // REPOS_SSH_BASE
    disallowedDirs: seq<string>, // DISALLOWED_DIRS
    httpGitEnabled: bool        // HTTP_GIT_ENABLED
  )
}
