/**
 * The updater's entry point: the table from repository type to updater, and
 * the loop that runs the updater of every configured item in turn and stops
 * at the first failure.
 */
module Driver {
  import opened Wrappers
  import opened Interfaces
  import opened Http
  import opened Fs
  import opened Util
  import opened Encoding
  import Maven
  import PaperMC
  import Jenkins
  import GithubRelease
  import DevBukkitOrg

  datatype UpdaterKind =
    | MavenUpdater
    | GitUpdater
    | GithubReleaseUpdater
    | DevBukkitOrgUpdater
    | PaperMCUpdater
    | JenkinsArtifactUpdater

  /** Each updater's `getName()`. */
  function GetName(u: UpdaterKind): string {
    match u
    case MavenUpdater => Maven.GetName()
    case GitUpdater => "git"
    case GithubReleaseUpdater => GithubRelease.GetName()
    case DevBukkitOrgUpdater => DevBukkitOrg.GetName()
    case PaperMCUpdater => PaperMC.GetName()
    case JenkinsArtifactUpdater => Jenkins.GetName()
  }

  /** The `updaters` table. */
  const Updaters: map<string, UpdaterKind> := map[
    "maven" := MavenUpdater,
    "git" := GitUpdater,
    "github_release" := GithubReleaseUpdater,
    "dev_bukkit_org" := DevBukkitOrgUpdater,
    "papermc_api" := PaperMCUpdater,
    "jenkins_artifact" := JenkinsArtifactUpdater]

  /** Every updater is registered under the name it reports, and under no other. */
  lemma RegisteredNamesMatchKeys()
    ensures forall key :: key in Updaters ==> GetName(Updaters[key]) == key
    ensures forall u: UpdaterKind :: GetName(u) in Updaters && Updaters[GetName(u)] == u
  {
    forall u: UpdaterKind ensures GetName(u) in Updaters && Updaters[GetName(u)] == u {
      match u
      case MavenUpdater =>
      case GitUpdater =>
      case GithubReleaseUpdater =>
      case DevBukkitOrgUpdater =>
      case PaperMCUpdater =>
      case JenkinsArtifactUpdater =>
    }
  }

  /** The already-loaded configuration: repositories by key and the items in declaration order. */
  datatype Config = Config(repos: map<string, Repository>, items: seq<Item>)

  /**
   * What the updaters consult outside the file system: the network, the
   * digest, regular-expression matching, and the outcome of the git tool.
   */
  datatype Env = Env(
    remote: Remote,
    digest: DigestFn,
    matches: Jenkins.Matcher,
    git: (Item, Repository) -> bool)

  /**
   * `updaters[config.repos[item.repository].type]`: an unknown repository
   * key or type throws (reading `type` of undefined, or calling `getName`
   * on undefined) before the updater could run.
   */
  function Dispatch(config: Config, item: Item): (r: Result<(Repository, UpdaterKind), Error>)
    ensures r.Success? <==> item.repository in config.repos && config.repos[item.repository].kind in Updaters
    ensures r.Success? ==> r.value == (config.repos[item.repository], Updaters[config.repos[item.repository].kind])
    ensures item.repository !in config.repos ==> r == Failure(UnknownRepository(item.repository))
    ensures item.repository in config.repos && config.repos[item.repository].kind !in Updaters ==>
      r == Failure(UnknownRepositoryType(config.repos[item.repository].kind))
  {
    if item.repository !in config.repos then Failure(UnknownRepository(item.repository))
    else
      var repo := config.repos[item.repository];
      if repo.kind !in Updaters then Failure(UnknownRepositoryType(repo.kind))
      else Success((repo, Updaters[repo.kind]))
  }

  /**
   * The effect of `updater.run(item, repo)` on the files, for each kind of
   * updater, with `file` the item's absolute destination. The git updater
   * only drives the external tool and leaves the files alone.
   */
  function RunEffect(u: UpdaterKind, item: Item, repo: Repository, env: Env, unreadable: set<string>,
                     file: string, files: map<string, seq<byte>>): Outcome
  {
    match u
    case MavenUpdater => Maven.RunEffect(files, unreadable, file, item, repo, env.remote, env.digest)
    case GitUpdater => Outcome(if env.git(item, repo) then Success(Synced) else Failure(ExternalCommandFailed), files)
    case GithubReleaseUpdater => GithubRelease.RunEffect(files, unreadable, file, item, repo, env.remote, env.digest)
    case DevBukkitOrgUpdater => DevBukkitOrg.RunEffect(files, unreadable, file, item, repo, env.remote, env.digest)
    case PaperMCUpdater => PaperMC.RunEffect(files, unreadable, file, item, repo, env.remote, env.digest)
    case JenkinsArtifactUpdater => Jenkins.RunEffect(files, file, item, repo, env.remote, env.matches)
  }

  /**
   * One iteration of `main`'s loop on `files`: a failed lookup throws before
   * anything runs, otherwise the dispatched updater's effect at
   * `prefix + item.destination`.
   */
  function ItemEffect(config: Config, env: Env, prefix: string, unreadable: set<string>,
                      files: map<string, seq<byte>>, item: Item): Outcome
  {
    match Dispatch(config, item)
    case Failure(e) => Outcome(Failure(e), files)
    case Success((repo, u)) => RunEffect(u, item, repo, env, unreadable, prefix + item.destination, files)
  }

  /**
   * An item's run touches nothing but its own destination and the
   * destination's `.tmp` sibling, whatever its updater and its outcome, and
   * leaves no `.tmp` sibling behind unless it changed nothing.
   */
  lemma ItemEffectChangesOnly(config: Config, env: Env, prefix: string, unreadable: set<string>,
                              files: map<string, seq<byte>>, item: Item)
    ensures ChangesOnly(files, ItemEffect(config, env, prefix, unreadable, files, item).files, prefix + item.destination)
  {
    var file := prefix + item.destination;
    match Dispatch(config, item)
    case Failure(_) =>
    case Success((repo, u)) =>
      match u
      case MavenUpdater => Maven.RunEffectChangesOnly(files, unreadable, file, item, repo, env.remote, env.digest);
      case GitUpdater =>
      case GithubReleaseUpdater => GithubRelease.RunEffectChangesOnly(files, unreadable, file, item, repo, env.remote, env.digest);
      case DevBukkitOrgUpdater =>
        ContentMD5SyncChangesOnly(files, unreadable, file, DevBukkitOrg.LatestFileUrl(item.source), repo, "etag", Hex, env.remote, env.digest);
      case PaperMCUpdater => PaperMC.RunEffectChangesOnly(files, unreadable, file, item, repo, env.remote, env.digest);
      case JenkinsArtifactUpdater => Jenkins.RunEffectChangesOnly(files, file, item, repo, env.remote, env.matches);
  }

  /** `updater.run(item, repo)`. */
  method RunUpdater(fs: FileSystem, paths: PathPrefix, u: UpdaterKind, item: Item, repo: Repository, env: Env)
    returns (r: Result<Action, Error>)
    modifies fs`files
    ensures Outcome(r, fs.files) ==
      RunEffect(u, item, repo, env, fs.unreadable, paths.MakeAbsoluteDestination(item), old(fs.files))
  {
    match u {
      case MavenUpdater =>
        r := Maven.Run(fs, paths, item, repo, env.remote, env.digest);
      case GitUpdater =>
        r := if env.git(item, repo) then Success(Synced) else Failure(ExternalCommandFailed);
      case GithubReleaseUpdater =>
        r := GithubRelease.Run(fs, paths, item, repo, env.remote, env.digest);
      case DevBukkitOrgUpdater =>
        r := DevBukkitOrg.Run(fs, paths, item, repo, env.remote, env.digest);
      case PaperMCUpdater =>
        r := PaperMC.Run(fs, paths, item, repo, env.remote, env.digest);
      case JenkinsArtifactUpdater =>
        r := Jenkins.Run(fs, paths, item, repo, env.remote, env.matches);
    }
  }

  /**
   * One iteration of `main`'s loop: look the updater up, then run it.
   * `dispatched` tells whether the lookup succeeded, so that the updater ran.
   */
  method UpdateItem(fs: FileSystem, paths: PathPrefix, config: Config, item: Item, env: Env)
    returns (dispatched: bool, r: Result<Action, Error>)
    modifies fs`files
    ensures dispatched <==> Dispatch(config, item).Success?
    ensures Outcome(r, fs.files) == ItemEffect(config, env, paths.prefix, fs.unreadable, old(fs.files), item)
  {
    var dispatch := Dispatch(config, item);
    if dispatch.Failure? {
      return false, Failure(dispatch.error);
    }
    var (repo, updater) := dispatch.value;
    dispatched := true;
    r := RunUpdater(fs, paths, updater, item, repo, env);
  }

  /** The first `n` started items all completed. */
  ghost predicate CompletedRuns(config: Config, env: Env, prefix: string, unreadable: set<string>,
                                trace: seq<map<string, seq<byte>>>, runs: seq<Item>, n: nat)
    requires n <= |runs| && n < |trace|
    decreases n, 0
  {
    n == 0 || RunCompleted(config, env, prefix, unreadable, trace, runs, n - 1)
  }

  /**
   * Item k completed: so did every item before it, and its run succeeded and
   * took the files from `trace[k]` to `trace[k + 1]`.
   */
  ghost predicate RunCompleted(config: Config, env: Env, prefix: string, unreadable: set<string>,
                               trace: seq<map<string, seq<byte>>>, runs: seq<Item>, k: nat)
    requires k < |runs| && k + 1 < |trace|
    decreases k, 1
  {
    && CompletedRuns(config, env, prefix, unreadable, trace, runs, k)
    && ItemEffect(config, env, prefix, unreadable, trace[k], runs[k]).result.Success?
    && ItemEffect(config, env, prefix, unreadable, trace[k], runs[k]).files == trace[k + 1]
  }

  /** Item by item: each of the first `n` runs succeeded and produced the next entry of the trace. */
  lemma {:induction false} CompletedRunsAt(config: Config, env: Env, prefix: string, unreadable: set<string>,
                                           trace: seq<map<string, seq<byte>>>, runs: seq<Item>, n: nat, k: nat)
    requires n <= |runs| && n < |trace|
    requires CompletedRuns(config, env, prefix, unreadable, trace, runs, n)
    requires k < n
    ensures ItemEffect(config, env, prefix, unreadable, trace[k], runs[k]).result.Success?
    ensures ItemEffect(config, env, prefix, unreadable, trace[k], runs[k]).files == trace[k + 1]
  {
    if k < n - 1 {
      CompletedRunsAt(config, env, prefix, unreadable, trace, runs, n - 1, k);
    }
  }

  /** Recording one more run does not change what the earlier entries say. */
  lemma {:induction false} CompletedRunsExtend(config: Config, env: Env, prefix: string, unreadable: set<string>,
                                               trace: seq<map<string, seq<byte>>>, runs: seq<Item>, n: nat,
                                               trace': seq<map<string, seq<byte>>>, runs': seq<Item>)
    requires n <= |runs| && n < |trace|
    requires |runs| <= |runs'| && runs == runs'[..|runs|]
    requires |trace| <= |trace'| && trace == trace'[..|trace|]
    requires CompletedRuns(config, env, prefix, unreadable, trace, runs, n)
    ensures CompletedRuns(config, env, prefix, unreadable, trace', runs', n)
  {
    if n > 0 {
      assert trace[n - 1] == trace'[n - 1] && trace[n] == trace'[n] && runs[n - 1] == runs'[n - 1];
      CompletedRunsExtend(config, env, prefix, unreadable, trace, runs, n - 1, trace', runs');
    }
  }

  /** A successful run of the next item extends the completed prefix by one. */
  lemma {:induction false} CompletedRunsSnoc(config: Config, env: Env, prefix: string, unreadable: set<string>,
                                             trace: seq<map<string, seq<byte>>>, runs: seq<Item>,
                                             item: Item, after: map<string, seq<byte>>)
    requires |trace| == |runs| + 1
    requires CompletedRuns(config, env, prefix, unreadable, trace, runs, |runs|)
    requires ItemEffect(config, env, prefix, unreadable, trace[|runs|], item).result.Success?
    requires ItemEffect(config, env, prefix, unreadable, trace[|runs|], item).files == after
    ensures CompletedRuns(config, env, prefix, unreadable, trace + [after], runs + [item], |runs| + 1)
  {
    CompletedRunsExtend(config, env, prefix, unreadable, trace, runs, |runs|, trace + [after], runs + [item]);
    assert (trace + [after])[|runs|] == trace[|runs|] && (runs + [item])[|runs|] == item;
  }

  /**
   * `setPathPrefix(prefix)` followed by `main()`. `runs` lists the items
   * whose updater was started and `completed` counts those that finished.
   * The runs are a prefix of the items in declaration order, and every
   * started item had an updater. `trace` holds the files before the first
   * item and after each started one: each completed item's run succeeded and
   * took the files from one entry to the next, and the first failure (of a
   * lookup or of a run) is the reported error and ends the loop.
   */
  method UpdateAll(fs: FileSystem, paths: PathPrefix, config: Config, prefix: string, env: Env)
    returns (r: Result<(), Error>, runs: seq<Item>, completed: nat, ghost trace: seq<map<string, seq<byte>>>)
    modifies fs`files, paths
    ensures paths.prefix == prefix
    ensures |runs| <= |config.items| && runs == config.items[..|runs|]
    ensures forall k :: 0 <= k < |runs| ==> Dispatch(config, runs[k]).Success?
    ensures completed <= |runs| <= completed + 1
    ensures r.Success? <==> completed == |config.items|
    ensures |trace| == |runs| + 1 && trace[0] == old(fs.files) && trace[|runs|] == fs.files
    ensures CompletedRuns(config, env, prefix, fs.unreadable, trace, runs, completed)
    ensures r.Failure? && |runs| == completed ==>
      completed < |config.items| && Dispatch(config, config.items[completed]) == Failure(r.error)
    ensures |runs| == completed + 1 ==>
      r.Failure? && ItemEffect(config, env, prefix, fs.unreadable, trace[completed], runs[completed]) ==
        Outcome(Failure(r.error), trace[completed + 1])
  {
    paths.SetPathPrefix(prefix);
    runs, completed, trace := [], 0, [fs.files];
    while completed < |config.items|
      invariant completed <= |config.items|
      invariant runs == config.items[..completed]
      invariant forall k :: 0 <= k < completed ==> Dispatch(config, config.items[k]).Success?
      invariant paths.prefix == prefix
      invariant |trace| == completed + 1 && trace[0] == old(fs.files) && trace[completed] == fs.files
      invariant CompletedRuns(config, env, prefix, fs.unreadable, trace, runs, completed)
    {
      var item := config.items[completed];
      var dispatched, outcome := UpdateItem(fs, paths, config, item, env);
      if !dispatched {
        assert Dispatch(config, item) == Failure(outcome.error);
        return Failure(outcome.error), runs, completed, trace;
      }
      if outcome.Success? {
        CompletedRunsSnoc(config, env, prefix, fs.unreadable, trace, runs, item, fs.files);
      } else {
        CompletedRunsExtend(config, env, prefix, fs.unreadable, trace, runs, completed, trace + [fs.files], runs + [item]);
      }
      runs := runs + [item];
      assert runs == config.items[..completed + 1];
      trace := trace + [fs.files];
      if outcome.Failure? {
        return Failure(outcome.error), runs, completed, trace;
      }
      completed := completed + 1;
    }
    r := Success(());
  }
}
