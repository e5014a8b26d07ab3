/**
 * The decision logic of the Git Smart HTTP routes in
 * `git_web/views/git_http.py`. Each route is wrapped first by the
 * HTTP_GIT_ENABLED switch, then by basic authentication, and then runs its
 * own checks before handing over to the pack-exchange bridge, which is
 * represented here only by the response that names what it would be given.
 */
module GitHttp {
  import opened Results
  import opened Paths
  import opened Settings
  import opened Checkers
  import opened Calculations
  import opened Requests

  /** `abort(403)` when the advertised service is not a pack type. */
  const Forbidden: nat := 403

  /** The two Smart HTTP routes with their URL parts and query argument. */
  datatype Request =
    | PostPack(repoDir: string, repoName: string, packType: string)
    | GetInfoRefs(repoDir: string, repoName: string, service: Option<string>)

  /** What a request ends in. */
  datatype Response =
    | Abort(status: nat)
    /** Basic authentication refused: a challenge is sent back. */
    | AuthChallenge
    /** `post_pack_response(repo_path, pack_type)`. */
    | PackResponse(repoPath: Path, packType: string)
    /** `get_info_refs_response(repo_path, pack_type)`. */
    | InfoRefsResponse(repoPath: Path, packType: string)

  predicate ReachesBridge(r: Response) { r.PackResponse? || r.InfoRefsResponse? }

  /** `post_pack` once past the decorators: the pack type is checked before the repository. */
  function PostPackRoute(cfg: Config, existing: set<Path>, allowedPackTypes: set<string>,
                         repoDir: string, repoName: string, packType: string): (r: Response)
    ensures packType !in allowedPackTypes ==> r == Abort(NotFound)
    ensures r.PackResponse? <==> packType in allowedPackTypes && EnsureRepoPathValid(cfg, existing, repoDir, repoName).Ok?
    ensures r.PackResponse? ==> r == PackResponse(EnsureRepoPathValid(cfg, existing, repoDir, repoName).value, packType)
    ensures !r.PackResponse? ==> r == Abort(NotFound)
  {
    if packType !in allowedPackTypes then Abort(NotFound)
    else
      match EnsureRepoPathValid(cfg, existing, repoDir, repoName)
      case Err(status) => Abort(status)
      case Ok(repoPath) => PackResponse(repoPath, packType)
  }

  /**
   * `get_info_refs` once past the decorators: the repository is checked
   * first (404), then a missing or unknown `service` argument is 403.
   */
  function GetInfoRefsRoute(cfg: Config, existing: set<Path>, allowedPackTypes: set<string>,
                            repoDir: string, repoName: string, service: Option<string>): (r: Response)
    ensures EnsureRepoPathValid(cfg, existing, repoDir, repoName).Err? ==> r == Abort(NotFound)
    ensures (EnsureRepoPathValid(cfg, existing, repoDir, repoName).Ok?
             && !(service.Some? && service.value in allowedPackTypes)) ==> r == Abort(Forbidden)
    ensures r.InfoRefsResponse? <==> EnsureRepoPathValid(cfg, existing, repoDir, repoName).Ok?
                                     && service.Some? && service.value in allowedPackTypes
    ensures r.InfoRefsResponse? ==> r == InfoRefsResponse(EnsureRepoPathValid(cfg, existing, repoDir, repoName).value, service.value)
  {
    match EnsureRepoPathValid(cfg, existing, repoDir, repoName)
    case Err(status) => Abort(status)
    case Ok(repoPath) =>
      match service
      case None => Abort(Forbidden)
      case Some(packType) => if packType !in allowedPackTypes then Abort(Forbidden) else InfoRefsResponse(repoPath, packType)
  }

  /**
   * A route with its two decorators: `require_http_git_enabled` outermost,
   * so a disabled service is 404 before authentication is asked for; then
   * `git_auth_required`.
   */
  function Handle(cfg: Config, existing: set<Path>, allowedPackTypes: set<string>,
                  authorized: bool, req: Request): (r: Response)
    ensures !cfg.httpGitEnabled ==> r == Abort(NotFound)
    ensures cfg.httpGitEnabled && !authorized ==> r == AuthChallenge
    ensures r == AuthChallenge ==> cfg.httpGitEnabled && !authorized
    ensures ReachesBridge(r) ==> cfg.httpGitEnabled && authorized
    ensures r.PackResponse? ==> req.PostPack? && r.packType == req.packType
    ensures r.InfoRefsResponse? ==> req.GetInfoRefs? && req.service == Some(r.packType)
  {
    if !cfg.httpGitEnabled then Abort(NotFound)
    else if !authorized then AuthChallenge
    else
      match req
      case PostPack(repoDir, repoName, packType) =>
        PostPackRoute(cfg, existing, allowedPackTypes, repoDir, repoName, packType)
      case GetInfoRefs(repoDir, repoName, service) =>
        GetInfoRefsRoute(cfg, existing, allowedPackTypes, repoDir, repoName, service)
  }

  /**
   * The bridge is reached only with an allowed pack type and the checked,
   * existing path of the repository the URL names.
   */
  lemma BridgeOnlyWithValidRepoAndPackType(cfg: Config, existing: set<Path>, allowedPackTypes: set<string>,
                                          authorized: bool, req: Request)
    requires ReachesBridge(Handle(cfg, existing, allowedPackTypes, authorized, req))
    ensures var r := Handle(cfg, existing, allowedPackTypes, authorized, req);
            r.packType in allowedPackTypes
            && r.repoPath in existing
            && SafeCombineFullDirRepo(cfg, req.repoDir, req.repoName) == Ok(r.repoPath)
            && r.repoPath == cfg.reposPath + [req.repoDir, req.repoName + ".git"]
  {
  }

  /**
   * Every allowed, authenticated request for an existing repository with
   * valid names reaches the bridge.
   */
  lemma ValidRequestReachesBridge(cfg: Config, existing: set<Path>, allowedPackTypes: set<string>, req: Request)
    requires cfg.httpGitEnabled
    requires IsValidDirectoryName(req.repoDir, cfg.disallowedDirs) && IsValidRepoName(req.repoName)
    requires cfg.reposPath + [req.repoDir, req.repoName + ".git"] in existing
    requires req.PostPack? ==> req.packType in allowedPackTypes
    requires req.GetInfoRefs? ==> req.service.Some? && req.service.value in allowedPackTypes
    ensures ReachesBridge(Handle(cfg, existing, allowedPackTypes, true, req))
  {
  }

  /**
   * The same unknown pack type is 404 on the POST route, checked before
   * the repository, and 403 on the GET route once the repository is found.
   */
  lemma UnknownPackTypeStatus(cfg: Config, existing: set<Path>, allowedPackTypes: set<string>,
                              repoDir: string, repoName: string, packType: string)
    requires cfg.httpGitEnabled
    requires packType !in allowedPackTypes
    ensures Handle(cfg, existing, allowedPackTypes, true, PostPack(repoDir, repoName, packType)) == Abort(NotFound)
    ensures EnsureRepoPathValid(cfg, existing, repoDir, repoName).Ok?
            ==> Handle(cfg, existing, allowedPackTypes, true, GetInfoRefs(repoDir, repoName, Some(packType))) == Abort(Forbidden)
    ensures EnsureRepoPathValid(cfg, existing, repoDir, repoName).Err?
            ==> Handle(cfg, existing, allowedPackTypes, true, GetInfoRefs(repoDir, repoName, Some(packType))) == Abort(NotFound)
  {
  }
}
