/**
 * The PaperMC updater: read the builds of one project version, take the
 * highest build number, look up the configured download of that build and
 * fetch it unless its published SHA-256 equals the local one.
 */
module PaperMC {
  import opened Wrappers
  import opened Interfaces
  import opened Documents
  import opened Strings
  import opened Encoding
  import opened Http
  import opened Fs
  import opened Util

  /** `projects/${source}/versions/${version}/builds`. */
  function BuildsPath(source: string, version: string): string {
    "projects/" + source + "/versions/" + version + "/builds"
  }

  /** `${buildsPath}/${build}/downloads/${name}`. */
  function DownloadUrl(buildsPath: string, build: int, name: string): string {
    buildsPath + "/" + IntToString(build) + "/downloads/" + name
  }

  // ------------------------------------------------------- build selection

  /** One step of the builds `reduce`: a strictly higher build number takes over. */
  function BuildStep(latest: Option<PaperBuild>, build: PaperBuild): Option<PaperBuild> {
    if latest.None? || build.build > latest.value.build then Some(build) else latest
  }

  function LatestBuild(builds: seq<PaperBuild>): Option<PaperBuild> {
    if builds == [] then None else BuildStep(LatestBuild(builds[..|builds| - 1]), builds[|builds| - 1])
  }

  /** Position `k` holds the highest build number, and every earlier build has a lower one. */
  ghost predicate IsFirstMax(builds: seq<PaperBuild>, k: int) {
    && 0 <= k < |builds|
    && (forall j :: 0 <= j < |builds| ==> builds[j].build <= builds[k].build)
    && (forall j :: 0 <= j < k ==> builds[j].build < builds[k].build)
  }

  lemma {:induction false} LatestBuildSpec(builds: seq<PaperBuild>)
    ensures LatestBuild(builds).None? <==> builds == []
    ensures LatestBuild(builds).Some? ==> exists k :: IsFirstMax(builds, k) && builds[k] == LatestBuild(builds).value
  {
    if builds != [] {
      var n := |builds| - 1;
      var init := builds[..n];
      LatestBuildSpec(init);
      var latest := LatestBuild(init);
      forall j | 0 <= j < n ensures builds[j] == init[j] {
      }
      if latest.None? {
        assert IsFirstMax(builds, n);
      } else {
        var k :| IsFirstMax(init, k) && init[k] == latest.value;
        if builds[n].build > latest.value.build {
          assert IsFirstMax(builds, n);
        } else {
          assert IsFirstMax(builds, k);
        }
      }
    }
  }

  /**
   * The builds `reduce` and its `!build` check: the highest build number,
   * the earliest listed on ties; an empty list is an error.
   */
  function SelectBuild(builds: seq<PaperBuild>): (r: Result<PaperBuild, Error>)
    ensures r.Failure? <==> builds == []
    ensures r.Failure? ==> r.error == NoBuildFound
    ensures r.Success? ==> exists k :: IsFirstMax(builds, k) && builds[k] == r.value
  {
    LatestBuildSpec(builds);
    match LatestBuild(builds)
    case None => Failure(NoBuildFound)
    case Some(b) => Success(b)
  }

  /** `build.downloads[key]` and its `!buildDownload` check. */
  function SelectDownload(build: PaperBuild, key: string): (r: Result<PaperDownload, Error>)
    ensures r.Success? <==> key in build.downloads
    ensures r.Success? ==> r.value == build.downloads[key]
    ensures r.Failure? ==> r.error == NoBuildDownloadFound
  {
    if key in build.downloads then Success(build.downloads[key]) else Failure(NoBuildDownloadFound)
  }

  /** The parsed builds list; any other document is malformed. */
  function ListedBuilds(resp: Response, url: string): (r: Result<seq<PaperBuild>, Error>)
    ensures r.Success? <==> resp.document.PaperBuilds?
    ensures r.Success? ==> r.value == resp.document.builds
    ensures r.Failure? ==> r.error == MalformedResponse(url)
  {
    if resp.document.PaperBuilds? then Success(resp.document.builds) else Failure(MalformedResponse(url))
  }

  // ------------------------------------------------------------- resolution

  /** What the builds request decides. */
  datatype Plan = Plan(buildsPath: string, build: PaperBuild, download: PaperDownload, downloadUrl: string)

  /**
   * `run` up to the hash comparison. `params!.version` is read before the
   * request and `params!.download` after the selection, so an item without
   * params fails before any request; a missing key reads as "undefined".
   */
  function Resolve(item: Item, repo: Repository, remote: Remote): Result<Plan, Error> {
    var version :- RequiredParamText(item.params, "version");
    var buildsPath := BuildsPath(item.source, version);
    var resp :- FetchSimple(buildsPath, repo, remote);
    var builds :- ListedBuilds(resp, buildsPath);
    var build :- SelectBuild(builds);
    // `params` is known to be present here, so `params!.download` cannot throw
    var key := Param(item.params, "download").GetOr("undefined");
    var download :- SelectDownload(build, key);
    Success(Plan(buildsPath, build, download, DownloadUrl(buildsPath, build.build, download.name)))
  }

  /**
   * A resolved plan is read from `projects/{source}/versions/{version}/builds`,
   * holds the highest build there and the download named by the `download`
   * parameter, and points at `{builds}/{build}/downloads/{name}`.
   */
  lemma ResolveSpec(item: Item, repo: Repository, remote: Remote)
    ensures var r := Resolve(item, repo, remote);
      r.Success? ==>
        var p := r.value;
        && item.params.Some?
        && p.buildsPath == BuildsPath(item.source, Param(item.params, "version").GetOr("undefined"))
        && FetchSimple(p.buildsPath, repo, remote).Success?
        && FetchSimple(p.buildsPath, repo, remote).value.document.PaperBuilds?
        && SelectBuild(FetchSimple(p.buildsPath, repo, remote).value.document.builds) == Success(p.build)
        && SelectDownload(p.build, Param(item.params, "download").GetOr("undefined")) == Success(p.download)
        && p.downloadUrl == DownloadUrl(p.buildsPath, p.build.build, p.download.name)
  {
  }

  /** An item without params fails before any request is made. */
  lemma ResolveWithoutParams(item: Item, repo: Repository, remote: Remote)
    requires item.params.None?
    ensures Resolve(item, repo, remote) == Failure(ParamsMissing)
  {
  }

  /** An empty builds list fails with 'No build found!'. */
  lemma ResolveNoBuild(item: Item, repo: Repository, remote: Remote)
    requires item.params.Some?
    requires var path := BuildsPath(item.source, Param(item.params, "version").GetOr("undefined"));
      && FetchSimple(path, repo, remote).Success?
      && FetchSimple(path, repo, remote).value.document == PaperBuilds([])
    ensures Resolve(item, repo, remote) == Failure(NoBuildFound)
  {
  }

  // -------------------------------------------------------------------- run

  /** The skip rule: the published SHA-256 equals the local hex SHA-256. */
  predicate Skips(p: Plan, localHash: string) {
    p.download.sha256 == localHash
  }

  /** With no local file the local hash is "", so a non-empty published hash never skips. */
  lemma MissingFileDownloads(fs: FileSystem, file: string, p: Plan, digest: DigestFn)
    requires file !in fs.files && file !in fs.unreadable
    requires p.download.sha256 != ""
    ensures LocalDigestString(fs, file, "sha256", Hex, digest) == Success("")
    ensures !Skips(p, LocalDigestString(fs, file, "sha256", Hex, digest).value)
  {
  }

  /**
   * The effect of a run: a failed resolution or local read error changes
   * nothing, an equal local hex SHA-256 skips, and otherwise the download
   * replaces `file` atomically.
   */
  function RunEffect(files: map<string, seq<byte>>, unreadable: set<string>, file: string, item: Item,
                     repo: Repository, remote: Remote, digest: DigestFn): Outcome
  {
    match Resolve(item, repo, remote)
    case Failure(e) => Outcome(Failure(e), files)
    case Success(p) =>
      var local := LocalDigestStringIn(files, unreadable, file, "sha256", Hex, digest);
      if local.Failure? then Outcome(Failure(local.error), files)
      else if Skips(p, local.value) then Outcome(Success(Skipped), files)
      else FetchEffect(files, file, p.downloadUrl, repo, remote)
  }

  /** A run touches only the destination and its temporary sibling. */
  lemma RunEffectChangesOnly(files: map<string, seq<byte>>, unreadable: set<string>, file: string, item: Item,
                             repo: Repository, remote: Remote, digest: DigestFn)
    ensures ChangesOnly(files, RunEffect(files, unreadable, file, item, repo, remote, digest).files, file)
  {
    var plan := Resolve(item, repo, remote);
    if plan.Success? {
      FetchEffectChangesOnly(files, file, plan.value.downloadUrl, repo, remote);
    }
  }

  /** `PaperMCUpdater.run`. */
  method Run(fs: FileSystem, paths: PathPrefix, item: Item, repo: Repository, remote: Remote, digest: DigestFn)
    returns (r: Result<Action, Error>)
    modifies fs`files
    ensures Outcome(r, fs.files) ==
      RunEffect(old(fs.files), fs.unreadable, paths.MakeAbsoluteDestination(item), item, repo, remote, digest)
  {
    var plan := Resolve(item, repo, remote);
    if plan.Failure? {
      return Failure(plan.error);
    }
    var p := plan.value;
    var localHash := FileHashString(fs, paths, item, "sha256", Hex, digest);
    if localHash.Failure? {
      return Failure(localHash.error);
    }
    if Skips(p, localHash.value) {
      return Success(Skipped);
    }
    r := FetchToFile(fs, paths, p.downloadUrl, repo, item, remote);
  }

  function GetName(): string {
    "papermc_api"
  }
}
