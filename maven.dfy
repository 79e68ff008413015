/**
 * The Maven updater: derive the repository path and artifactId from a
 * `group:artifact` coordinate, pick the newest listed version and, inside
 * it, the most recently updated plain jar snapshot, then compare the
 * published hash with the local one and download the jar when they differ.
 */
module Maven {
  import opened Wrappers
  import opened Interfaces
  import opened Documents
  import opened Strings
  import opened Versions
  import opened Encoding
  import opened Http
  import opened Fs
  import opened Util

  const DefaultHashAlgo: string := "sha1"

  /** `repo.params?.hashAlgo ?? 'sha1'`. */
  function HashAlgo(repo: Repository): (r: string)
    ensures Param(repo.params, "hashAlgo").Some? ==> r == Param(repo.params, "hashAlgo").value
    ensures Param(repo.params, "hashAlgo").None? ==> r == DefaultHashAlgo
  {
    Param(repo.params, "hashAlgo").GetOr(DefaultHashAlgo)
  }

  // ---------------------------------------------------------------- paths

  predicate IsPathSeparatorSource(c: char) {
    c == ':' || c == '.'
  }

  /** `source.replace(/[:.]/g, '/')`: every ':' and '.' becomes '/', every other character stays. */
  function BasePath(source: string): (r: string)
    ensures |r| == |source|
    ensures forall k :: 0 <= k < |r| ==> !IsPathSeparatorSource(r[k])
    ensures forall k :: 0 <= k < |r| && !IsPathSeparatorSource(source[k]) ==> r[k] == source[k]
  {
    if source == [] then []
    else [if IsPathSeparatorSource(source[0]) then '/' else source[0]] + BasePath(source[1..])
  }

  /** A relative path built on the base path resolves against the repository URL. */
  lemma BaseRelative(source: string, rest: string, base: string)
    requires ':' !in rest
    ensures ResolveUrl(BasePath(source) + rest, base) == base + BasePath(source) + rest
  {
    var p := BasePath(source);
    forall k | 0 <= k < |p + rest| ensures (p + rest)[k] != ':' {
      if k < |p| {
        assert (p + rest)[k] == p[k];
      } else {
        assert (p + rest)[k] == rest[k - |p|];
      }
    }
  }

  /** The characters JavaScript's `.` does not match. */
  predicate IsLineTerminator(c: char) {
    c == '\n' || c == '\r' || c == '\U{2028}' || c == '\U{2029}'
  }

  /** The length of the first line: where `^.*` must stop. */
  function FirstLineLength(s: string): (n: nat)
    ensures n <= |s|
    ensures forall k :: 0 <= k < n ==> !IsLineTerminator(s[k])
    ensures n < |s| ==> IsLineTerminator(s[n])
  {
    if s == [] || IsLineTerminator(s[0]) then 0 else 1 + FirstLineLength(s[1..])
  }

  /** The position of the last ':' among the first `n` characters. */
  function LastColonBefore(s: string, n: nat): (r: Option<nat>)
    requires n <= |s|
    ensures r.None? ==> forall k :: 0 <= k < n ==> s[k] != ':'
    ensures r.Some? ==> r.value < n && s[r.value] == ':' && forall k :: r.value < k < n ==> s[k] != ':'
  {
    if n == 0 then None
    else if s[n - 1] == ':' then Some(n - 1)
    else LastColonBefore(s, n - 1)
  }

  /**
   * `source.replace(/^.*:/, '')`: the greedy match removes the first line up
   * to its last ':'. The result is a suffix of the source; when anything was
   * removed, a ':' directly precedes it; and in a one-line source it holds no
   * ':', so it is the part after the last ':' or the whole source.
   */
  function ArtifactId(source: string): (r: string)
    ensures |r| <= |source| && r == source[|source| - |r|..]
    ensures |r| < |source| ==> source[|source| - |r| - 1] == ':'
    ensures (forall k :: 0 <= k < |source| ==> !IsLineTerminator(source[k])) ==> ':' !in r
  {
    match LastColonBefore(source, FirstLineLength(source))
    case None => source
    case Some(i) => source[i + 1..]
  }

  /** In a coordinate `group:name` whose name has no ':', the artifactId is the name. */
  lemma ArtifactIdOfCoordinate(group: string, name: string)
    requires ':' !in name
    requires forall k :: 0 <= k < |group| ==> !IsLineTerminator(group[k])
    requires forall k :: 0 <= k < |name| ==> !IsLineTerminator(name[k])
    ensures ArtifactId(group + ":" + name) == name
  {
    var s := group + ":" + name;
    forall k | 0 <= k < |s| ensures !IsLineTerminator(s[k]) {
      if k < |group| {
        assert s[k] == group[k];
      } else if k > |group| {
        assert s[k] == name[k - |group| - 1];
      }
    }
    assert s[|group|] == ':';
    assert s[|s| - |name|..] == name;
  }

  // ------------------------------------------------------ version selection

  /** A "strictly newer" relation: `compareVersions` or a duplicate of it. */
  type Newer = (string, string) -> bool

  /** One step of the versions `reduce`: a falsy accumulator ("" or null) or a newer version takes over. */
  function VersionStep(newer: Newer, latest: string, version: string): string {
    if latest == "" || newer(version, latest) then version else latest
  }

  /** The versions `reduce` from `null`; "" stands for both falsy accumulators. */
  function LatestVersion(versions: seq<string>, newer: Newer): string
  {
    if versions == [] then ""
    else VersionStep(newer, LatestVersion(versions[..|versions| - 1], newer), versions[|versions| - 1])
  }

  /**
   * Position `k` holds a chosen version: it is non-empty, no listed version
   * is newer, and every earlier non-empty version is strictly older (so the
   * earliest of equal versions is kept).
   */
  ghost predicate IsFirstLatest(versions: seq<string>, k: int, newer: Newer) {
    && 0 <= k < |versions|
    && versions[k] != ""
    && (forall j :: 0 <= j < |versions| ==> !newer(versions[j], versions[k]))
    && (forall j :: 0 <= j < k && versions[j] != "" ==> newer(versions[k], versions[j]))
  }

  lemma {:induction false} LatestVersionSpec(versions: seq<string>, newer: Newer)
    requires IsVersionOrder(newer)
    ensures LatestVersion(versions, newer) == "" <==> forall j :: 0 <= j < |versions| ==> versions[j] == ""
    ensures LatestVersion(versions, newer) != "" ==>
      exists k :: IsFirstLatest(versions, k, newer) && versions[k] == LatestVersion(versions, newer)
  {
    if versions != [] {
      var n := |versions| - 1;
      var init := versions[..n];
      LatestVersionSpec(init, newer);
      var latest := LatestVersion(init, newer);
      if latest == "" {
        if versions[n] != "" {
          FirstLatestFresh(versions, newer);
        }
      } else {
        var k :| IsFirstLatest(init, k, newer) && init[k] == latest;
        if newer(versions[n], latest) {
          FirstLatestTakeOver(versions, k, newer);
        } else {
          FirstLatestKeep(versions, k, newer);
        }
      }
    }
  }

  /** The first non-empty version after only empty ones is chosen. */
  lemma {:induction false} FirstLatestFresh(versions: seq<string>, newer: Newer)
    requires IsVersionOrder(newer)
    requires |versions| > 0 && versions[|versions| - 1] != ""
    requires forall j :: 0 <= j < |versions| - 1 ==> versions[j] == ""
    ensures IsFirstLatest(versions, |versions| - 1, newer)
  {
  }

  /** A version newer than the running choice replaces it. */
  lemma {:induction false} FirstLatestTakeOver(versions: seq<string>, k: int, newer: Newer)
    requires IsVersionOrder(newer)
    requires |versions| > 0 && IsFirstLatest(versions[..|versions| - 1], k, newer)
    requires newer(versions[|versions| - 1], versions[k])
    ensures IsFirstLatest(versions, |versions| - 1, newer)
  {
    var n := |versions| - 1;
    assert versions[k] == versions[..n][k];
    forall j | 0 <= j < n ensures versions[j] == versions[..n][j] {
    }
  }

  /** A version not newer than the running choice leaves it in place. */
  lemma {:induction false} FirstLatestKeep(versions: seq<string>, k: int, newer: Newer)
    requires |versions| > 0 && IsFirstLatest(versions[..|versions| - 1], k, newer)
    requires !newer(versions[|versions| - 1], versions[k])
    ensures IsFirstLatest(versions, k, newer)
  {
    var n := |versions| - 1;
    assert versions[k] == versions[..n][k];
    forall j | 0 <= j < n ensures versions[j] == versions[..n][j] {
    }
  }

  /**
   * The versions `reduce` with `compareVersions` and its `!latestVersion`
   * check: a version no listed version is newer than, the earliest among
   * equals; only an empty (or all-blank) list fails.
   */
  function SelectVersion(versions: seq<string>): (r: Result<string, Error>)
    ensures r.Failure? <==> forall j :: 0 <= j < |versions| ==> versions[j] == ""
    ensures r.Failure? ==> r.error == NoVersionFound
    ensures r.Success? ==> exists k :: IsFirstLatest(versions, k, IsNewer) && versions[k] == r.value
  {
    CompareVersionsIsVersionOrder();
    LatestVersionSpec(versions, IsNewer);
    var latest := LatestVersion(versions, IsNewer);
    if latest == "" then Failure(NoVersionFound) else Success(latest)
  }

  // ----------------------------------------------------- snapshot selection

  /** `snapshot.extension[0] === 'jar' && !snapshot.classifier`. */
  predicate IsJarCandidate(s: Snapshot) {
    s.extension == "jar" && s.classifier.None?
  }

  /** The `filter` of plain jar snapshots, in document order. */
  function JarCandidates(snapshots: seq<Snapshot>): (r: seq<Snapshot>)
    ensures |r| <= |snapshots|
    ensures forall s :: s in r <==> s in snapshots && IsJarCandidate(s)
  {
    if snapshots == [] then []
    else
      var init := JarCandidates(snapshots[..|snapshots| - 1]);
      var last := snapshots[|snapshots| - 1];
      assert snapshots == snapshots[..|snapshots| - 1] + [last];
      if IsJarCandidate(last) then init + [last] else init
  }

  /** One step of the snapshot `reduce`: the current one takes over when strictly later. */
  function SnapshotStep(latest: Option<Snapshot>, current: Snapshot): Option<Snapshot> {
    if latest.None? then Some(current)
    else if StrLess(latest.value.updated, current.updated) then Some(current)
    else latest
  }

  function LatestSnapshot(candidates: seq<Snapshot>): Option<Snapshot> {
    if candidates == [] then None
    else SnapshotStep(LatestSnapshot(candidates[..|candidates| - 1]), candidates[|candidates| - 1])
  }

  /** Position `k` holds the greatest `updated`; every earlier entry is strictly older. */
  ghost predicate IsFirstNewest(candidates: seq<Snapshot>, k: int) {
    && 0 <= k < |candidates|
    && (forall j :: 0 <= j < |candidates| ==> !StrLess(candidates[k].updated, candidates[j].updated))
    && (forall j :: 0 <= j < k ==> StrLess(candidates[j].updated, candidates[k].updated))
  }

  lemma {:induction false} LatestSnapshotSpec(candidates: seq<Snapshot>)
    ensures LatestSnapshot(candidates).None? <==> candidates == []
    ensures LatestSnapshot(candidates).Some? ==>
      exists k :: IsFirstNewest(candidates, k) && candidates[k] == LatestSnapshot(candidates).value
  {
    if candidates != [] {
      var n := |candidates| - 1;
      var init := candidates[..n];
      LatestSnapshotSpec(init);
      var latest := LatestSnapshot(init);
      if latest.None? {
        StrLessIrreflexive(candidates[n].updated);
        assert IsFirstNewest(candidates, n);
      } else {
        var k :| IsFirstNewest(init, k) && init[k] == latest.value;
        if StrLess(latest.value.updated, candidates[n].updated) {
          FirstNewestTakeOver(candidates, k);
        } else {
          FirstNewestKeep(candidates, k);
        }
      }
    }
  }

  /** A strictly later snapshot replaces the running choice. */
  lemma {:induction false} FirstNewestTakeOver(candidates: seq<Snapshot>, k: int)
    requires |candidates| > 0 && IsFirstNewest(candidates[..|candidates| - 1], k)
    requires StrLess(candidates[k].updated, candidates[|candidates| - 1].updated)
    ensures IsFirstNewest(candidates, |candidates| - 1)
  {
    var n := |candidates| - 1;
    var init, top, c := candidates[..n], candidates[k].updated, candidates[n].updated;
    assert top == init[k].updated;
    forall j | 0 <= j < n ensures StrLess(candidates[j].updated, c) {
      var u := candidates[j].updated;
      assert u == init[j].updated;
      if u != top {
        StrLessTotal(u, top);
        StrLessTransitive(u, top, c);
      }
    }
    forall j | 0 <= j < |candidates| ensures !StrLess(c, candidates[j].updated) {
      if j < n {
        StrLessAsymmetric(candidates[j].updated, c);
      } else {
        StrLessIrreflexive(c);
      }
    }
  }

  /** A snapshot that is not strictly later leaves the running choice in place. */
  lemma {:induction false} FirstNewestKeep(candidates: seq<Snapshot>, k: int)
    requires |candidates| > 0 && IsFirstNewest(candidates[..|candidates| - 1], k)
    requires !StrLess(candidates[k].updated, candidates[|candidates| - 1].updated)
    ensures IsFirstNewest(candidates, k)
  {
    var n := |candidates| - 1;
    assert candidates[k] == candidates[..n][k];
    forall j | 0 <= j < n ensures candidates[j] == candidates[..n][j] {
    }
  }

  /**
   * The snapshot `filter`/`reduce` and its `!jarSnapshot` check: among the
   * plain jar snapshots, the one with the greatest `updated`, the earliest
   * on ties; none qualifying is an error.
   */
  function SelectSnapshot(snapshots: seq<Snapshot>): (r: Result<Snapshot, Error>)
    ensures r.Failure? <==> forall j :: 0 <= j < |snapshots| ==> !IsJarCandidate(snapshots[j])
    ensures r.Failure? ==> r.error == NoBinarySnapshotFound
    ensures r.Success? ==> IsJarCandidate(r.value)
    ensures r.Success? ==> exists k :: IsFirstNewest(JarCandidates(snapshots), k) && JarCandidates(snapshots)[k] == r.value
  {
    var candidates := JarCandidates(snapshots);
    LatestSnapshotSpec(candidates);
    if candidates == [] then
      assert forall j :: 0 <= j < |snapshots| ==> snapshots[j] in snapshots;
      Failure(NoBinarySnapshotFound)
    else
      assert candidates[0] in candidates;
      var chosen := LatestSnapshot(candidates).value;
      assert chosen in candidates;
      Success(chosen)
  }

  /**
   * Position `k` of the whole snapshot list is the one the `filter`/`reduce`
   * keeps: a plain jar snapshot that no other plain jar snapshot is later
   * than, and strictly later than every plain jar snapshot before it.
   */
  ghost predicate IsChosenSnapshot(snapshots: seq<Snapshot>, k: int) {
    && 0 <= k < |snapshots|
    && IsJarCandidate(snapshots[k])
    && (forall j :: 0 <= j < |snapshots| && IsJarCandidate(snapshots[j]) ==>
          !StrLess(snapshots[k].updated, snapshots[j].updated))
    && (forall j :: 0 <= j < k && IsJarCandidate(snapshots[j]) ==>
          StrLess(snapshots[j].updated, snapshots[k].updated))
  }

  /**
   * The tie rule over the document's own list: the selected snapshot is a
   * plain jar with the greatest `updated`, and the earliest such in
   * document order.
   */
  lemma SelectSnapshotTieRule(snapshots: seq<Snapshot>)
    ensures SelectSnapshot(snapshots).Success? ==>
      exists k :: IsChosenSnapshot(snapshots, k) && snapshots[k] == SelectSnapshot(snapshots).value
  {
    LatestCandidateIsChosen(snapshots);
  }

  lemma {:induction false} LatestCandidateIsChosen(snapshots: seq<Snapshot>)
    ensures LatestSnapshot(JarCandidates(snapshots)).Some? ==>
      exists k :: IsChosenSnapshot(snapshots, k) && snapshots[k] == LatestSnapshot(JarCandidates(snapshots)).value
  {
    if snapshots != [] {
      var n := |snapshots| - 1;
      var init, last := snapshots[..n], snapshots[n];
      LatestCandidateIsChosen(init);
      var prev := LatestSnapshot(JarCandidates(init));
      var latest := LatestSnapshotSnoc(snapshots);
      if prev.None? {
        if IsJarCandidate(last) {
          NoCandidateBefore(snapshots);
          StrLessIrreflexive(last.updated);
          assert IsChosenSnapshot(snapshots, n);
        }
      } else {
        var k :| IsChosenSnapshot(init, k) && init[k] == prev.value;
        if IsJarCandidate(last) && StrLess(prev.value.updated, last.updated) {
          ChosenTakeOver(snapshots, k);
        } else {
          ChosenKeep(snapshots, k);
        }
      }
    }
  }

  /** The running choice over the plain jars after one more snapshot. */
  lemma LatestSnapshotSnoc(snapshots: seq<Snapshot>) returns (latest: Option<Snapshot>)
    requires snapshots != []
    ensures var n := |snapshots| - 1;
      && latest == LatestSnapshot(JarCandidates(snapshots))
      && latest == if IsJarCandidate(snapshots[n]) then SnapshotStep(LatestSnapshot(JarCandidates(snapshots[..n])), snapshots[n])
                   else LatestSnapshot(JarCandidates(snapshots[..n]))
  {
    var n := |snapshots| - 1;
    var c, last := JarCandidates(snapshots[..n]), snapshots[n];
    if IsJarCandidate(last) {
      assert JarCandidates(snapshots) == c + [last];
      assert (c + [last])[..|c|] == c;
    }
    latest := LatestSnapshot(JarCandidates(snapshots));
  }

  /** With no running choice before the last snapshot, nothing before it is a plain jar. */
  lemma NoCandidateBefore(snapshots: seq<Snapshot>)
    requires snapshots != []
    requires LatestSnapshot(JarCandidates(snapshots[..|snapshots| - 1])).None?
    ensures forall j :: 0 <= j < |snapshots| - 1 ==> !IsJarCandidate(snapshots[j])
  {
    var init := snapshots[..|snapshots| - 1];
    LatestSnapshotSpec(JarCandidates(init));
    forall j | 0 <= j < |snapshots| - 1 ensures !IsJarCandidate(snapshots[j]) {
      assert snapshots[j] == init[j] && init[j] in init;
    }
  }

  /** A strictly later plain jar at the end takes over the choice. */
  lemma {:induction false} ChosenTakeOver(snapshots: seq<Snapshot>, k: int)
    requires |snapshots| > 0 && IsChosenSnapshot(snapshots[..|snapshots| - 1], k)
    requires IsJarCandidate(snapshots[|snapshots| - 1])
    requires StrLess(snapshots[k].updated, snapshots[|snapshots| - 1].updated)
    ensures IsChosenSnapshot(snapshots, |snapshots| - 1)
  {
    var n := |snapshots| - 1;
    var init, top, c := snapshots[..n], snapshots[k].updated, snapshots[n].updated;
    assert top == init[k].updated;
    forall j | 0 <= j < n && IsJarCandidate(snapshots[j]) ensures StrLess(snapshots[j].updated, c) {
      var u := snapshots[j].updated;
      assert snapshots[j] == init[j];
      if u != top {
        StrLessTotal(u, top);
        StrLessTransitive(u, top, c);
      }
    }
    forall j | 0 <= j < |snapshots| && IsJarCandidate(snapshots[j]) ensures !StrLess(c, snapshots[j].updated) {
      if j < n {
        StrLessAsymmetric(snapshots[j].updated, c);
      } else {
        StrLessIrreflexive(c);
      }
    }
  }

  /** Anything else at the end leaves the choice in place. */
  lemma {:induction false} ChosenKeep(snapshots: seq<Snapshot>, k: int)
    requires |snapshots| > 0 && IsChosenSnapshot(snapshots[..|snapshots| - 1], k)
    requires IsJarCandidate(snapshots[|snapshots| - 1]) ==>
      !StrLess(snapshots[k].updated, snapshots[|snapshots| - 1].updated)
    ensures IsChosenSnapshot(snapshots, k)
  {
    var n := |snapshots| - 1;
    assert snapshots[k] == snapshots[..n][k];
    forall j | 0 <= j < n ensures snapshots[j] == snapshots[..n][j] {
    }
  }

  // ------------------------------------------------------------- resolution

  function MetadataUrl(dir: string): string {
    dir + "/maven-metadata.xml"
  }

  function VersionUrl(base: string, version: string): string {
    base + "/" + version
  }

  /** `${versionUrl}/${artifactId}-${value}.jar`. */
  function JarUrl(versionUrl: string, artifactId: string, value: string): string {
    versionUrl + "/" + artifactId + "-" + value + ".jar"
  }

  /** `${jarUrl}.${hashAlgo}`: the checksum published beside the jar. */
  function HashUrl(jarUrl: string, hashAlgo: string): string {
    jarUrl + "." + hashAlgo
  }

  /** `metadata.versioning[0].versions[0].version`: a document without it is malformed. */
  function ListedVersions(resp: Response, url: string): (r: Result<seq<string>, Error>)
    ensures r.Success? <==> resp.document.Maven? && resp.document.metadata.versions.Some?
    ensures r.Success? ==> r.value == resp.document.metadata.versions.value
    ensures r.Failure? ==> r.error == MalformedResponse(url)
  {
    if resp.document.Maven? && resp.document.metadata.versions.Some?
    then Success(resp.document.metadata.versions.value)
    else Failure(MalformedResponse(url))
  }

  /** `metadata.versioning[0].snapshotVersions[0].snapshotVersion`. */
  function ListedSnapshots(resp: Response, url: string): (r: Result<seq<Snapshot>, Error>)
    ensures r.Success? <==> resp.document.Maven? && resp.document.metadata.snapshotVersions.Some?
    ensures r.Success? ==> r.value == resp.document.metadata.snapshotVersions.value
    ensures r.Failure? ==> r.error == MalformedResponse(url)
  {
    if resp.document.Maven? && resp.document.metadata.snapshotVersions.Some?
    then Success(resp.document.metadata.snapshotVersions.value)
    else Failure(MalformedResponse(url))
  }

  /** What the three metadata requests decide. */
  datatype Plan = Plan(
    hashAlgo: string,
    version: string,
    snapshot: Snapshot,
    jarUrl: string,
    hashUrl: string,
    remoteHash: string)

  /**
   * The requests of `run` up to the hash comparison: the versions listed at
   * `base/maven-metadata.xml`, the chosen version's snapshots at
   * `base/version/maven-metadata.xml`, and the trimmed text at the hash URL.
   */
  function Resolve(item: Item, repo: Repository, remote: Remote): Result<Plan, Error>
  {
    var hashAlgo := HashAlgo(repo);
    var base := BasePath(item.source);
    var artifactId := ArtifactId(item.source);
    var metadataRes :- FetchSimple(MetadataUrl(base), repo, remote);
    var versions :- ListedVersions(metadataRes, MetadataUrl(base));
    var version :- SelectVersion(versions);
    var versionUrl := VersionUrl(base, version);
    var versionMetadataRes :- FetchSimple(MetadataUrl(versionUrl), repo, remote);
    var snapshots :- ListedSnapshots(versionMetadataRes, MetadataUrl(versionUrl));
    var snapshot :- SelectSnapshot(snapshots);
    var jarUrl := JarUrl(versionUrl, artifactId, snapshot.value);
    var hashUrl := HashUrl(jarUrl, hashAlgo);
    var hashResponse :- FetchSimple(hashUrl, repo, remote);
    Success(Plan(hashAlgo, version, snapshot, jarUrl, hashUrl, Trim(hashResponse.text)))
  }

  /**
   * A resolved plan follows the documents: its version is the one
   * `SelectVersion` picks from `base/maven-metadata.xml`, its snapshot the
   * one `SelectSnapshot` picks from `base/version/maven-metadata.xml`, its
   * URLs are built from them, and its remote hash is the trimmed text at the
   * hash URL.
   */
  lemma ResolveSpec(item: Item, repo: Repository, remote: Remote)
    ensures var r := Resolve(item, repo, remote);
      r.Success? ==>
        var base := BasePath(item.source);
        var p := r.value;
        && p.hashAlgo == HashAlgo(repo)
        && FetchSimple(MetadataUrl(base), repo, remote).Success?
        && ListedVersions(FetchSimple(MetadataUrl(base), repo, remote).value, MetadataUrl(base)).Success?
        && SelectVersion(ListedVersions(FetchSimple(MetadataUrl(base), repo, remote).value, MetadataUrl(base)).value) == Success(p.version)
        && var dir := VersionUrl(base, p.version);
        && FetchSimple(MetadataUrl(dir), repo, remote).Success?
        && ListedSnapshots(FetchSimple(MetadataUrl(dir), repo, remote).value, MetadataUrl(dir)).Success?
        && SelectSnapshot(ListedSnapshots(FetchSimple(MetadataUrl(dir), repo, remote).value, MetadataUrl(dir)).value) == Success(p.snapshot)
        && p.jarUrl == JarUrl(VersionUrl(base, p.version), ArtifactId(item.source), p.snapshot.value)
        && p.hashUrl == HashUrl(p.jarUrl, p.hashAlgo)
        && FetchSimple(p.hashUrl, repo, remote).Success?
        && p.remoteHash == Trim(FetchSimple(p.hashUrl, repo, remote).value.text)
  {
    var base := BasePath(item.source);
    var metadataRes := FetchSimple(MetadataUrl(base), repo, remote);
    if metadataRes.Success? {
      var versions := ListedVersions(metadataRes.value, MetadataUrl(base));
      if versions.Success? {
        var version := SelectVersion(versions.value);
        if version.Success? {
          var dir := VersionUrl(base, version.value);
          var versionMetadataRes := FetchSimple(MetadataUrl(dir), repo, remote);
          if versionMetadataRes.Success? {
            var snapshots := ListedSnapshots(versionMetadataRes.value, MetadataUrl(dir));
            if snapshots.Success? {
              var snapshot := SelectSnapshot(snapshots.value);
              if snapshot.Success? {
                var jarUrl := JarUrl(dir, ArtifactId(item.source), snapshot.value.value);
                var hashResponse := FetchSimple(HashUrl(jarUrl, HashAlgo(repo)), repo, remote);
                if hashResponse.Success? {
                  assert Resolve(item, repo, remote) == Success(Plan(HashAlgo(repo), version.value, snapshot.value, jarUrl,
                    HashUrl(jarUrl, HashAlgo(repo)), Trim(hashResponse.value.text)));
                }
              }
            }
          }
        }
      }
    }
  }

  /**
   * A metadata document whose listed versions are all empty strings (or
   * that lists none) ends the run with 'No version found'.
   */
  lemma ResolveNoVersion(item: Item, repo: Repository, remote: Remote)
    requires FetchSimple(MetadataUrl(BasePath(item.source)), repo, remote).Success?
    requires var versions := ListedVersions(FetchSimple(MetadataUrl(BasePath(item.source)), repo, remote).value,
                                            MetadataUrl(BasePath(item.source)));
      versions.Success? && forall j :: 0 <= j < |versions.value| ==> versions.value[j] == ""
    ensures Resolve(item, repo, remote) == Failure(NoVersionFound)
  {
  }

  /**
   * When the chosen version's metadata lists no plain jar snapshot, the run
   * ends with 'No binary snapshot found'.
   */
  lemma ResolveNoSnapshot(item: Item, repo: Repository, remote: Remote, version: string)
    requires var base := BasePath(item.source);
      && FetchSimple(MetadataUrl(base), repo, remote).Success?
      && ListedVersions(FetchSimple(MetadataUrl(base), repo, remote).value, MetadataUrl(base)).Success?
      && SelectVersion(ListedVersions(FetchSimple(MetadataUrl(base), repo, remote).value, MetadataUrl(base)).value) == Success(version)
      && var dir := VersionUrl(base, version);
      && FetchSimple(MetadataUrl(dir), repo, remote).Success?
      && ListedSnapshots(FetchSimple(MetadataUrl(dir), repo, remote).value, MetadataUrl(dir)).Success?
      && var snapshots := ListedSnapshots(FetchSimple(MetadataUrl(dir), repo, remote).value, MetadataUrl(dir)).value;
      forall j :: 0 <= j < |snapshots| ==> !IsJarCandidate(snapshots[j])
    ensures Resolve(item, repo, remote) == Failure(NoBinarySnapshotFound)
  {
  }

  /**
   * Every request of a run goes to the repository: with a coordinate, a
   * version and a snapshot value free of ':', the jar URL is
   * `repo.url + base/version/artifactId-value.jar`.
   */
  lemma JarUrlResolvesAgainstRepo(source: string, version: string, value: string, repo: Repository)
    requires ':' !in version && ':' !in value
    requires forall k :: 0 <= k < |source| ==> !IsLineTerminator(source[k])
    ensures var jar := JarUrl(VersionUrl(BasePath(source), version), ArtifactId(source), value);
      ResolveUrl(jar, repo.url) == repo.url + jar
  {
    BasePathNoColon(source);
    JarUrlNoColon(BasePath(source), version, ArtifactId(source), value);
  }

  /**
   * A version holding ':' makes the jar URL look absolute, so it is
   * requested as it stands, without the repository's base URL.
   */
  lemma JarUrlWithColonIsTakenAsIs(source: string, version: string, value: string, repo: Repository)
    requires ':' in version
    ensures var jar := JarUrl(VersionUrl(BasePath(source), version), ArtifactId(source), value);
      ResolveUrl(jar, repo.url) == jar
  {
    var base := BasePath(source);
    var jar := JarUrl(VersionUrl(base, version), ArtifactId(source), value);
    var k :| 0 <= k < |version| && version[k] == ':';
    assert jar == base + "/" + version + ("/" + ArtifactId(source) + "-" + value + ".jar");
    assert jar[|base| + 1 + k] == ':';
  }

  lemma BasePathNoColon(source: string)
    ensures ':' !in BasePath(source)
  {
    var base := BasePath(source);
    forall k | 0 <= k < |base| ensures base[k] != ':' {
      assert !IsPathSeparatorSource(base[k]);
    }
  }

  lemma JarUrlNoColon(base: string, version: string, id: string, value: string)
    requires ':' !in base && ':' !in version && ':' !in id && ':' !in value
    ensures ':' !in JarUrl(VersionUrl(base, version), id, value)
  {
  }

  // -------------------------------------------------------------------- run

  /**
   * The effect of the hash comparison and download against a resolved plan:
   * a local read error aborts, an equal local hex digest skips, and otherwise
   * the jar replaces `file` atomically.
   */
  function JarSync(files: map<string, seq<byte>>, unreadable: set<string>, file: string, p: Plan, repo: Repository,
                   remote: Remote, digest: DigestFn): Outcome
  {
    var local := LocalDigestStringIn(files, unreadable, file, p.hashAlgo, Hex, digest);
    if local.Failure? then Outcome(Failure(local.error), files)
    else if p.remoteHash == local.value then Outcome(Success(Skipped), files)
    else FetchEffect(files, file, p.jarUrl, repo, remote)
  }

  /** The effect of a whole run: a failed resolution changes nothing, otherwise `JarSync` on the plan. */
  function RunEffect(files: map<string, seq<byte>>, unreadable: set<string>, file: string, item: Item,
                     repo: Repository, remote: Remote, digest: DigestFn): Outcome
  {
    match Resolve(item, repo, remote)
    case Failure(e) => Outcome(Failure(e), files)
    case Success(p) => JarSync(files, unreadable, file, p, repo, remote, digest)
  }

  /** A run touches only the destination and its temporary sibling. */
  lemma RunEffectChangesOnly(files: map<string, seq<byte>>, unreadable: set<string>, file: string, item: Item,
                             repo: Repository, remote: Remote, digest: DigestFn)
    ensures ChangesOnly(files, RunEffect(files, unreadable, file, item, repo, remote, digest).files, file)
  {
    var plan := Resolve(item, repo, remote);
    if plan.Success? {
      FetchEffectChangesOnly(files, file, plan.value.jarUrl, repo, remote);
    }
  }

  /**
   * `MavenUpdater.run`: a missing local file hashes to "", so it is skipped
   * only if the published hash is blank; any other read error aborts.
   */
  method Run(fs: FileSystem, paths: PathPrefix, item: Item, repo: Repository, remote: Remote, digest: DigestFn)
    returns (r: Result<Action, Error>)
    modifies fs`files
    ensures Outcome(r, fs.files) ==
      RunEffect(old(fs.files), fs.unreadable, paths.MakeAbsoluteDestination(item), item, repo, remote, digest)
  {
    var plan := Resolve(item, repo, remote);
    if plan.Failure? {
      return Failure(plan.error);
    }
    r := SyncJar(fs, paths, item, repo, remote, plan.value, digest);
  }

  /** maven.ts:53-68 from the resolved plan on. */
  method SyncJar(fs: FileSystem, paths: PathPrefix, item: Item, repo: Repository, remote: Remote, p: Plan, digest: DigestFn)
    returns (r: Result<Action, Error>)
    modifies fs`files
    ensures Outcome(r, fs.files) ==
      JarSync(old(fs.files), fs.unreadable, paths.MakeAbsoluteDestination(item), p, repo, remote, digest)
  {
    var localHash := FileHashString(fs, paths, item, p.hashAlgo, Hex, digest);
    if localHash.Failure? {
      return Failure(localHash.error);
    }
    if p.remoteHash == localHash.value {
      return Success(Skipped);
    }
    r := FetchToFile(fs, paths, p.jarUrl, repo, item, remote);
  }

  /**
   * The path maven.ts:68 actually downloads to: it passes the string
   * `item.destination` where an item is expected, so `destination` of a
   * string is undefined and the target is the prefix followed by "undefined".
   */
  function AsWrittenTarget(prefix: string, item: Item): (r: string)
    ensures |r| == |prefix| + 9 && r[..|prefix|] == prefix && r[|prefix|..] == "undefined"
  {
    prefix + "undefined"
  }

  /** As written every Maven item lands on the same file, whatever its destination. */
  lemma AsWrittenTargetIgnoresDestination(prefix: string, item: Item)
    requires item.destination != "undefined"
    ensures AsWrittenTarget(prefix, item) != prefix + item.destination
    ensures AsWrittenTarget(prefix, item) == AsWrittenTarget(prefix, item.(destination := "a.jar"))
  {
    if |item.destination| == 9 {
      assert (prefix + item.destination)[|prefix|..] == item.destination;
      assert (prefix + "undefined")[|prefix|..] == "undefined";
    }
  }

  function GetName(): string {
    "maven"
  }
}
