/**
 * `mvnget PACKAGE DEST`: the stand-alone Maven downloader. It normalises
 * the package name, resolves the newest snapshot jar exactly as the Maven
 * updater does (with absolute URLs under the configured repository), and
 * writes the jar straight to DEST unless DEST already has the published
 * hash.
 */
module MavenDownloader {
  import opened Wrappers
  import opened Interfaces
  import opened Strings
  import opened Encoding
  import opened Http
  import opened Fs
  import opened Util
  import opened Maven
  import Versions

  /** The downloader's `config.js`: repository URL, aliases, default group and hash algorithm. */
  datatype DownloaderConfig = DownloaderConfig(
    repo: string,
    aliases: map<string, string>,
    defaultGroup: string,
    hashAlgo: string)

  /** `!mvnPkg || !dest`: both arguments must be present and non-empty. */
  function CheckArgs(pkg: Option<string>, dest: Option<string>): (r: Result<(string, string), Error>)
    ensures r.Failure? <==> pkg.None? || pkg.value == "" || dest.None? || dest.value == ""
    ensures r.Failure? ==> r.error == Usage
    ensures r.Success? ==> r.value == (pkg.value, dest.value)
  {
    if pkg.None? || pkg.value == "" || dest.None? || dest.value == "" then Failure(Usage)
    else Success((pkg.value, dest.value))
  }

  /**
   * The downloader's own `compareVersions` and `_prepareVersionStr`, copies of
   * the updater's: the same preparation and the same loop over the part
   * lists, so it answers exactly as the updater's comparator does on every
   * pair of versions.
   */
  method CompareVersions(v1: string, v2: string) returns (newer: bool)
    ensures newer == Versions.IsNewer(v1, v2)
    ensures newer <==> Versions.LexGreater(Versions.VersionTuple(v1), Versions.VersionTuple(v2))
  {
    var v1parts, v2parts := Versions.PrepareVersionStr(v1), Versions.PrepareVersionStr(v2);
    newer := Versions.CompareParts(v1parts, v2parts, Versions.VersionTuple(v1), Versions.VersionTuple(v2));
    Versions.IsNewerIsLex(v1, v2);
  }


  /** `config.aliases[mvnPkg]` is truthy. */
  predicate HasAlias(config: DownloaderConfig, pkg: string) {
    pkg in config.aliases && config.aliases[pkg] != ""
  }

  /**
   * The package name after normalisation: an alias wins; otherwise a name
   * without ':' is put into the default group; otherwise it is kept.
   */
  function NormalizePackage(config: DownloaderConfig, pkg: string): (r: string)
    ensures HasAlias(config, pkg) ==> r == config.aliases[pkg]
    ensures !HasAlias(config, pkg) && ':' !in pkg ==> r == config.defaultGroup + ":" + pkg
    ensures !HasAlias(config, pkg) && ':' in pkg ==> r == pkg
  {
    if HasAlias(config, pkg) then config.aliases[pkg]
    else if ':' !in pkg then config.defaultGroup + ":" + pkg
    else pkg
  }

  /**
   * A bare artifact name without an alias becomes a coordinate in the
   * default group whose artifactId is the name itself.
   */
  lemma BareNameKeepsArtifactId(config: DownloaderConfig, pkg: string)
    requires !HasAlias(config, pkg) && ':' !in pkg
    requires forall k :: 0 <= k < |config.defaultGroup| ==> !IsLineTerminator(config.defaultGroup[k])
    requires forall k :: 0 <= k < |pkg| ==> !IsLineTerminator(pkg[k])
    ensures ':' in NormalizePackage(config, pkg)
    ensures ArtifactId(NormalizePackage(config, pkg)) == pkg
  {
    var s := config.defaultGroup + ":" + pkg;
    assert s[|config.defaultGroup|] == ':';
    ArtifactIdOfCoordinate(config.defaultGroup, pkg);
  }

  /** `config.repo + mvnPkg.replace(/[:.]/g, '/')`. */
  function PackageUrl(config: DownloaderConfig, pkg: string): string {
    config.repo + BasePath(pkg)
  }

  /**
   * `main` up to the hash comparison, with `fetchWithErrors` on absolute
   * URLs: the same version and snapshot choice as the Maven updater, and
   * the hash algorithm from the configuration.
   */
  function Resolve(config: DownloaderConfig, pkg: string, remote: Remote): Result<Plan, Error> {
    var base := PackageUrl(config, pkg);
    var metadataRes :- FetchAbsolute(MetadataUrl(base), remote);
    var versions :- ListedVersions(metadataRes, MetadataUrl(base));
    var version :- SelectVersion(versions);
    var versionUrl := VersionUrl(base, version);
    var versionMetadataRes :- FetchAbsolute(MetadataUrl(versionUrl), remote);
    var snapshots :- ListedSnapshots(versionMetadataRes, MetadataUrl(versionUrl));
    var snapshot :- SelectSnapshot(snapshots);
    var jarUrl := JarUrl(versionUrl, ArtifactId(pkg), snapshot.value);
    var hashUrl := HashUrl(jarUrl, config.hashAlgo);
    var hashResponse :- FetchAbsolute(hashUrl, remote);
    Success(Plan(config.hashAlgo, version, snapshot, jarUrl, hashUrl, Trim(hashResponse.text)))
  }

  /**
   * A resolved plan is read from `repo + path/maven-metadata.xml` and
   * `repo + path/version/maven-metadata.xml`, and points at
   * `repo + path/version/artifactId-value.jar` and its `.hashAlgo` sidecar.
   */
  lemma ResolveSpec(config: DownloaderConfig, pkg: string, remote: Remote)
    ensures var r := Resolve(config, pkg, remote);
      r.Success? ==>
        var base := PackageUrl(config, pkg);
        var p := r.value;
        && p.hashAlgo == config.hashAlgo
        && FetchAbsolute(MetadataUrl(base), remote).Success?
        && ListedVersions(FetchAbsolute(MetadataUrl(base), remote).value, MetadataUrl(base)).Success?
        && SelectVersion(ListedVersions(FetchAbsolute(MetadataUrl(base), remote).value, MetadataUrl(base)).value) == Success(p.version)
        && var dir := VersionUrl(base, p.version);
        && FetchAbsolute(MetadataUrl(dir), remote).Success?
        && ListedSnapshots(FetchAbsolute(MetadataUrl(dir), remote).value, MetadataUrl(dir)).Success?
        && SelectSnapshot(ListedSnapshots(FetchAbsolute(MetadataUrl(dir), remote).value, MetadataUrl(dir)).value) == Success(p.snapshot)
        && p.jarUrl == JarUrl(dir, ArtifactId(pkg), p.snapshot.value)
        && p.hashUrl == HashUrl(p.jarUrl, config.hashAlgo)
        && FetchAbsolute(p.hashUrl, remote).Success?
        && p.remoteHash == Trim(FetchAbsolute(p.hashUrl, remote).value.text)
  {
    var base := PackageUrl(config, pkg);
    var metadataRes := FetchAbsolute(MetadataUrl(base), remote);
    if metadataRes.Success? {
      var versions := ListedVersions(metadataRes.value, MetadataUrl(base));
      if versions.Success? {
        var version := SelectVersion(versions.value);
        if version.Success? {
          var dir := VersionUrl(base, version.value);
          var versionMetadataRes := FetchAbsolute(MetadataUrl(dir), remote);
          if versionMetadataRes.Success? {
            var snapshots := ListedSnapshots(versionMetadataRes.value, MetadataUrl(dir));
            if snapshots.Success? {
              var snapshot := SelectSnapshot(snapshots.value);
              if snapshot.Success? {
                var jarUrl := JarUrl(dir, ArtifactId(pkg), snapshot.value.value);
                var hashResponse := FetchAbsolute(HashUrl(jarUrl, config.hashAlgo), remote);
                if hashResponse.Success? {
                  assert Resolve(config, pkg, remote) == Success(Plan(config.hashAlgo, version.value, snapshot.value, jarUrl,
                    HashUrl(jarUrl, config.hashAlgo), Trim(hashResponse.value.text)));
                }
              }
            }
          }
        }
      }
    }
  }

  /**
   * `fileSHA1(dest)` in hex: no hash at all for a missing file (ENOENT is
   * caught by the caller), an error for any other read failure.
   */
  function LocalHash(fs: FileSystem, dest: string, algo: string, digest: DigestFn): (r: Result<Option<string>, Error>)
    reads fs
    ensures r.Failure? <==> dest in fs.unreadable
    ensures r.Failure? ==> r.error == ReadFailed(dest)
    ensures r.Success? ==> (r.value.None? <==> dest !in fs.files)
    ensures r.Success? && r.value.Some? ==>
      r.value.value == LocalDigestStringIn(fs.files, fs.unreadable, dest, algo, Hex, digest).value
  {
    if dest in fs.unreadable then Failure(ReadFailed(dest))
    else if dest !in fs.files then Success(None)
    else Success(Some(HexString(digest(algo, fs.files[dest]))))
  }

  /** The skip rule: a local hash exists and equals the trimmed published one. */
  predicate SkipsDownload(remoteHash: string, local: Option<string>) {
    local.Some? && remoteHash == local.value
  }

  /** Without a local file the jar is always downloaded, even when the published hash is blank. */
  lemma MissingFileDownloads(fs: FileSystem, dest: string, algo: string, digest: DigestFn, remoteHash: string)
    requires dest !in fs.files && dest !in fs.unreadable
    ensures LocalHash(fs, dest, algo, digest) == Success(None)
    ensures !SkipsDownload(remoteHash, LocalHash(fs, dest, algo, digest).value)
  {
  }

  /**
   * `streamPipeline(body, createWriteStream(dest))`: the body is written
   * straight to `dest`, so a broken stream leaves the bytes received so far.
   */
  function DirectWrite(files: map<string, seq<byte>>, dest: string, body: Stream): (r: map<string, seq<byte>>)
    ensures dest in r
    ensures body.Complete? ==> r[dest] == body.bytes
    ensures body.Broken? ==> r[dest] == body.partial
    ensures forall p :: p != dest ==> (p in r <==> p in files) && (p in r ==> r[p] == files[p])
  {
    files[dest := if body.Complete? then body.bytes else body.partial]
  }

  /** Unlike the updater's atomic replace, a broken download does not keep the previous file. */
  lemma BrokenDownloadLosesOldFile(files: map<string, seq<byte>>, dest: string, partial: seq<byte>)
    requires dest in files && files[dest] != partial
    ensures DirectWrite(files, dest, Broken(partial))[dest] != files[dest]
    ensures AtomicReplace(files, dest, Broken(partial))[dest] == files[dest]
  {
  }

  /** The effect of the hash check and the download against a resolved plan. */
  twostate predicate FetchedJar(fs: FileSystem, dest: string, p: Plan, remote: Remote, digest: DigestFn,
                                new r: Result<Action, Error>)
    reads fs
  {
    var local := old(LocalHash(fs, dest, p.hashAlgo, digest));
    if local.Failure? then r == Failure(local.error) && fs.files == old(fs.files)
    else if SkipsDownload(p.remoteHash, local.value) then r == Success(Skipped) && fs.files == old(fs.files)
    else match FetchAbsolute(p.jarUrl, remote)
      case Failure(e) => r == Failure(e) && fs.files == old(fs.files)
      case Success(resp) => fs.files == DirectWrite(old(fs.files), dest, resp.body) && r == ReplaceOutcome(resp.body, dest)
  }

  /** index.js:118-137 from the resolved plan on. */
  method FetchJar(fs: FileSystem, dest: string, p: Plan, remote: Remote, digest: DigestFn)
    returns (r: Result<Action, Error>)
    modifies fs`files
    ensures FetchedJar(fs, dest, p, remote, digest, r)
  {
    var read := fs.ReadFile(dest);
    match read {
      case Failure(OtherError(path)) =>
        return Failure(ReadFailed(path));
      case Failure(NotFound(_)) =>
      case Success(bytes) =>
        var localHash := HexString(digest(p.hashAlgo, bytes));
        if p.remoteHash == localHash {
          return Success(Skipped);
        }
    }
    var jarResponse := FetchAbsolute(p.jarUrl, remote);
    if jarResponse.Failure? {
      return Failure(jarResponse.error);
    }
    var body := jarResponse.value.body;
    fs.WriteFile(dest, if body.Complete? then body.bytes else body.partial);
    r := ReplaceOutcome(body, dest);
  }

  /** `main()` with `process.argv[2]` and `process.argv[3]` as arguments. */
  method Run(fs: FileSystem, pkgArg: Option<string>, destArg: Option<string>, config: DownloaderConfig,
             remote: Remote, digest: DigestFn)
    returns (r: Result<Action, Error>)
    modifies fs`files
    ensures match CheckArgs(pkgArg, destArg)
      case Failure(e) => r == Failure(e) && fs.files == old(fs.files)
      case Success(args) =>
        match Resolve(config, NormalizePackage(config, args.0), remote)
        case Failure(e) => r == Failure(e) && fs.files == old(fs.files)
        case Success(p) => FetchedJar(fs, args.1, p, remote, digest, r)
  {
    var args := CheckArgs(pkgArg, destArg);
    if args.Failure? {
      return Failure(args.error);
    }
    var (pkg, dest) := args.value;
    var mvnPkg := NormalizePackage(config, pkg);
    var plan := Resolve(config, mvnPkg, remote);
    if plan.Failure? {
      return Failure(plan.error);
    }
    r := FetchJar(fs, dest, plan.value, remote, digest);
  }
}
