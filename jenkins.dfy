/**
 * The Jenkins artifact updater: read the last successful build of a job,
 * take the first artifact whose file name the configured pattern accepts,
 * and download it (there is no hash check).
 */
module Jenkins {
  import opened Wrappers
  import opened Interfaces
  import opened Documents
  import opened Http
  import opened Fs
  import opened Util

  /**
   * `new RegExp(pattern).test(text)`: regular-expression matching is not
   * modelled, so it is a parameter of the run.
   */
  type Matcher = (string, string) -> bool

  function BuildUrl(source: string): string {
    source + "/lastSuccessfulBuild"
  }

  function InfoUrl(source: string): string {
    BuildUrl(source) + "/api/json"
  }

  /** `${buildUrl}/artifact/${relativePath}`. */
  function ArtifactUrl(source: string, relativePath: string): string {
    BuildUrl(source) + "/artifact/" + relativePath
  }

  /**
   * `item.params['artifactRegex']`: reading it from absent params throws;
   * an absent key gives `new RegExp(undefined)`, which accepts every name.
   */
  function ArtifactPattern(params: Params): (r: Result<Option<string>, Error>)
    ensures r.Failure? <==> params.None?
    ensures r.Failure? ==> r.error == ParamsMissing
    ensures r.Success? ==> r.value == Param(params, "artifactRegex")
  {
    if params.None? then Failure(ParamsMissing) else Success(Param(params, "artifactRegex"))
  }

  /** Whether the pattern accepts a file name; the pattern of `RegExp(undefined)` accepts all. */
  predicate Accepts(matches: Matcher, pattern: Option<string>, fileName: string) {
    pattern.None? || matches(pattern.value, fileName)
  }

  /** Position `k` holds an accepted artifact and no earlier artifact is accepted. */
  ghost predicate IsFirstMatch(artifacts: seq<JenkinsArtifact>, k: int, matches: Matcher, pattern: Option<string>) {
    && 0 <= k < |artifacts|
    && Accepts(matches, pattern, artifacts[k].fileName)
    && (forall j :: 0 <= j < k ==> !Accepts(matches, pattern, artifacts[j].fileName))
  }

  /** The position `find` stops at: the first accepted artifact, or the length when there is none. */
  function FirstMatch(artifacts: seq<JenkinsArtifact>, matches: Matcher, pattern: Option<string>): (k: nat)
    ensures k <= |artifacts|
    ensures forall j :: 0 <= j < k ==> !Accepts(matches, pattern, artifacts[j].fileName)
    ensures k < |artifacts| ==> Accepts(matches, pattern, artifacts[k].fileName)
  {
    if artifacts == [] then 0
    else if Accepts(matches, pattern, artifacts[0].fileName) then 0
    else 1 + FirstMatch(artifacts[1..], matches, pattern)
  }

  /** The artifact `find` and its `!artifact` check. */
  function FindArtifact(artifacts: seq<JenkinsArtifact>, matches: Matcher, pattern: Option<string>)
    : (r: Result<JenkinsArtifact, Error>)
    ensures r.Failure? <==> forall j :: 0 <= j < |artifacts| ==> !Accepts(matches, pattern, artifacts[j].fileName)
    ensures r.Failure? ==> r.error == NoArtifactFound
    ensures r.Success? ==> exists k :: IsFirstMatch(artifacts, k, matches, pattern) && artifacts[k] == r.value
  {
    var k := FirstMatch(artifacts, matches, pattern);
    if k == |artifacts| then Failure(NoArtifactFound)
    else
      assert IsFirstMatch(artifacts, k, matches, pattern);
      Success(artifacts[k])
  }

  /** The parsed build descriptor; any other document is malformed. */
  function ListedArtifacts(resp: Response, url: string): (r: Result<seq<JenkinsArtifact>, Error>)
    ensures r.Success? <==> resp.document.JenkinsBuild?
    ensures r.Success? ==> r.value == resp.document.artifacts
    ensures r.Failure? ==> r.error == MalformedResponse(url)
  {
    if resp.document.JenkinsBuild? then Success(resp.document.artifacts) else Failure(MalformedResponse(url))
  }

  /**
   * `run` up to the download: the build descriptor is fetched before the
   * pattern is read, so a failed request wins over absent params.
   */
  function Resolve(item: Item, repo: Repository, remote: Remote, matches: Matcher): (r: Result<string, Error>)
    ensures r.Success? ==>
      && FetchSimple(InfoUrl(item.source), repo, remote).Success?
      && ListedArtifacts(FetchSimple(InfoUrl(item.source), repo, remote).value, InfoUrl(item.source)).Success?
      && item.params.Some?
      && var artifacts := ListedArtifacts(FetchSimple(InfoUrl(item.source), repo, remote).value, InfoUrl(item.source)).value;
      && FindArtifact(artifacts, matches, Param(item.params, "artifactRegex")).Success?
      && r.value == ArtifactUrl(item.source, FindArtifact(artifacts, matches, Param(item.params, "artifactRegex")).value.relativePath)
    ensures FetchSimple(InfoUrl(item.source), repo, remote).Failure? ==> r == Failure(FetchSimple(InfoUrl(item.source), repo, remote).error)
  {
    var resp :- FetchSimple(InfoUrl(item.source), repo, remote);
    var artifacts :- ListedArtifacts(resp, InfoUrl(item.source));
    var pattern :- ArtifactPattern(item.params);
    var artifact :- FindArtifact(artifacts, matches, pattern);
    Success(ArtifactUrl(item.source, artifact.relativePath))
  }

  /** The effect of a run: a failed resolution changes nothing, otherwise an unconditional download. */
  function RunEffect(files: map<string, seq<byte>>, file: string, item: Item, repo: Repository, remote: Remote,
                     matches: Matcher): Outcome
  {
    match Resolve(item, repo, remote, matches)
    case Failure(e) => Outcome(Failure(e), files)
    case Success(url) => FetchEffect(files, file, url, repo, remote)
  }

  /** A run touches only the destination and its temporary sibling. */
  lemma RunEffectChangesOnly(files: map<string, seq<byte>>, file: string, item: Item, repo: Repository, remote: Remote,
                             matches: Matcher)
    ensures ChangesOnly(files, RunEffect(files, file, item, repo, remote, matches).files, file)
  {
    var url := Resolve(item, repo, remote, matches);
    if url.Success? {
      FetchEffectChangesOnly(files, file, url.value, repo, remote);
    }
  }

  /** `JenkinsArtifactUpdater.run`: the chosen artifact always replaces the destination. */
  method Run(fs: FileSystem, paths: PathPrefix, item: Item, repo: Repository, remote: Remote, matches: Matcher)
    returns (r: Result<Action, Error>)
    modifies fs`files
    ensures Outcome(r, fs.files) == RunEffect(old(fs.files), paths.MakeAbsoluteDestination(item), item, repo, remote, matches)
  {
    var url := Resolve(item, repo, remote, matches);
    if url.Failure? {
      return Failure(url.error);
    }
    r := FetchToFile(fs, paths, url.value, repo, item, remote);
  }

  function GetName(): string {
    "jenkins_artifact"
  }
}
