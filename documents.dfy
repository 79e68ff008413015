/**
 * The already-parsed shapes of the metadata the updaters read: Maven's
 * `maven-metadata.xml` (versions and snapshot versions), the PaperMC
 * builds list, a Jenkins build descriptor and a GitHub release.
 */
module Documents {
  import opened Wrappers

  /** One `<snapshotVersion>`: a classifier element may be absent. */
  datatype Snapshot = Snapshot(
    extension: string,
    classifier: Option<string>,
    value: string,
    updated: string)

  /** `metadata.versioning[0]`: either list may be missing from a document. */
  datatype MavenMetadata = MavenMetadata(
    versions: Option<seq<string>>,
    snapshotVersions: Option<seq<Snapshot>>)

  datatype PaperDownload = PaperDownload(name: string, sha256: string)

  datatype PaperBuild = PaperBuild(build: int, downloads: map<string, PaperDownload>)

  datatype JenkinsArtifact = JenkinsArtifact(displayPath: string, fileName: string, relativePath: string)

  datatype GithubAsset = GithubAsset(name: string, url: string, browserDownloadUrl: string)

  /** What parsing a response body as XML or JSON yields. */
  datatype Document =
    | Maven(metadata: MavenMetadata)
    | PaperBuilds(builds: seq<PaperBuild>)
    | JenkinsBuild(artifacts: seq<JenkinsArtifact>)
    | GithubRelease(assets: seq<GithubAsset>)
    | Unparsable
}
