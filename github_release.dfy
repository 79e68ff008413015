/**
 * The GitHub release updater: read the latest release of a repository,
 * take the asset with the configured name (or the first asset when none is
 * configured) and sync it through the Content-MD5 comparison.
 */
module GithubRelease {
  import opened Wrappers
  import opened Interfaces
  import opened Documents
  import opened Encoding
  import opened Http
  import opened Fs
  import opened Util

  /** `repos/${source}/releases/latest`. */
  function ReleaseUrl(source: string): string {
    "repos/" + source + "/releases/latest"
  }

  /** The `find` predicate: a falsy target (absent or "") accepts every asset, any other only its namesake. */
  predicate Wanted(target: Option<string>, asset: GithubAsset) {
    target.None? || target.value == "" || target.value == asset.name
  }

  /** The position `find` stops at. */
  function FirstWanted(assets: seq<GithubAsset>, target: Option<string>): (k: nat)
    ensures k <= |assets|
    ensures forall j :: 0 <= j < k ==> !Wanted(target, assets[j])
    ensures k < |assets| ==> Wanted(target, assets[k])
  {
    if assets == [] then 0
    else if Wanted(target, assets[0]) then 0
    else 1 + FirstWanted(assets[1..], target)
  }

  /**
   * The asset `find` and its `!asset` check. Without a target name the
   * first asset is taken and only an empty list fails; with one, the first
   * asset of exactly that name is taken and its absence fails.
   */
  function FindAsset(assets: seq<GithubAsset>, target: Option<string>): (r: Result<GithubAsset, Error>)
    ensures r.Failure? ==> r.error == NoAssetFound
    ensures (target.None? || target.value == "") ==> (r.Success? <==> assets != [])
    ensures (target.None? || target.value == "") && r.Success? ==> r.value == assets[0]
    ensures target.Some? && target.value != "" ==>
      (r.Failure? <==> forall j :: 0 <= j < |assets| ==> assets[j].name != target.value)
    ensures target.Some? && target.value != "" && r.Success? ==>
      && r.value.name == target.value
      && exists k :: 0 <= k < |assets| && assets[k] == r.value && forall j :: 0 <= j < k ==> assets[j].name != target.value
  {
    var k := FirstWanted(assets, target);
    if k == |assets| then Failure(NoAssetFound) else Success(assets[k])
  }

  /** The parsed release; any other document is malformed. */
  function ListedAssets(resp: Response, url: string): (r: Result<seq<GithubAsset>, Error>)
    ensures r.Success? <==> resp.document.GithubRelease?
    ensures r.Success? ==> r.value == resp.document.assets
    ensures r.Failure? ==> r.error == MalformedResponse(url)
  {
    if resp.document.GithubRelease? then Success(resp.document.assets) else Failure(MalformedResponse(url))
  }

  /** `run` up to the download: the chosen asset, by `item.params?.assetName`. */
  function Resolve(item: Item, repo: Repository, remote: Remote): (r: Result<GithubAsset, Error>)
    ensures r.Success? ==>
      && FetchSimple(ReleaseUrl(item.source), repo, remote).Success?
      && ListedAssets(FetchSimple(ReleaseUrl(item.source), repo, remote).value, ReleaseUrl(item.source)).Success?
      && FindAsset(ListedAssets(FetchSimple(ReleaseUrl(item.source), repo, remote).value, ReleaseUrl(item.source)).value,
                   Param(item.params, "assetName")) == r
  {
    var resp :- FetchSimple(ReleaseUrl(item.source), repo, remote);
    var assets :- ListedAssets(resp, ReleaseUrl(item.source));
    FindAsset(assets, Param(item.params, "assetName"))
  }

  /** An item configured with `asset` instead of `assetName` has no target, so it gets the first asset. */
  lemma OtherKeyTakesFirstAsset(assets: seq<GithubAsset>, name: string)
    requires assets != []
    ensures FindAsset(assets, Param(Some(map["asset" := name]), "assetName")) == Success(assets[0])
  {
  }

  /**
   * The effect of a run: a failed resolution changes nothing, otherwise the
   * asset's browser download URL goes through the Content-MD5 path with the
   * digest header in base64.
   */
  function RunEffect(files: map<string, seq<byte>>, unreadable: set<string>, file: string, item: Item,
                     repo: Repository, remote: Remote, digest: DigestFn): Outcome
  {
    match Resolve(item, repo, remote)
    case Failure(e) => Outcome(Failure(e), files)
    case Success(asset) =>
      ContentMD5Sync(files, unreadable, file, asset.browserDownloadUrl, repo, "content-md5", Base64, remote, digest)
  }

  /** A run touches only the destination and its temporary sibling. */
  lemma RunEffectChangesOnly(files: map<string, seq<byte>>, unreadable: set<string>, file: string, item: Item,
                             repo: Repository, remote: Remote, digest: DigestFn)
    ensures ChangesOnly(files, RunEffect(files, unreadable, file, item, repo, remote, digest).files, file)
  {
    var asset := Resolve(item, repo, remote);
    if asset.Success? {
      ContentMD5SyncChangesOnly(files, unreadable, file, asset.value.browserDownloadUrl, repo, "content-md5", Base64, remote, digest);
    }
  }

  /** `GithubReleaseUpdater.run`. */
  method Run(fs: FileSystem, paths: PathPrefix, item: Item, repo: Repository, remote: Remote, digest: DigestFn)
    returns (r: Result<Action, Error>)
    modifies fs`files
    ensures Outcome(r, fs.files) ==
      RunEffect(old(fs.files), fs.unreadable, paths.MakeAbsoluteDestination(item), item, repo, remote, digest)
  {
    var asset := Resolve(item, repo, remote);
    if asset.Failure? {
      return Failure(asset.error);
    }
    r := FetchToFileWithContentMD5(fs, paths, asset.value.browserDownloadUrl, repo, item, "content-md5", Base64, remote, digest);
  }

  function GetName(): string {
    "github_release"
  }
}
