# FoxBukkit packages: the artifact updater and the Maven downloader

This project is a Dafny model of the decision logic in the FoxBukkit
`packages` repository. That logic has two parts:

- `docker/updater`: a batch job. For each configured item it asks the
  item's repository type (Maven, GitHub releases, dev.bukkit.org, the
  PaperMC API, Jenkins or git) for the newest published artifact, and
  replaces the local copy when its hash differs.
- `docker/maven-downloader` (`mvnget PACKAGE DEST`): a command-line tool that
  fetches the newest snapshot jar of one Maven package.

The model covers these parts:

- the version comparator, with its algebra: strict, transitive, total up to
  equal padded tuples, and lexicographic on zero-padded numeric components;
- the selectors: the newest version, the newest jar snapshot, the highest
  PaperMC build, the first matching Jenkins artifact and the first wanted
  GitHub asset, each proved against a positional characterisation;
- the URL and path builders: Maven coordinate to path, `artifactId`,
  relative-versus-absolute URL resolution, the path prefix, and the
  downloader's package normalisation;
- change detection: the digest-header cleaning used for Content-MD5
  (RFC 1864) and for ETag (section 8.8.3 of RFC 9110), and each updater's
  skip/download decision;
- the atomic replace through `dest.tmp`, modelled over a file system object
  whose `files` map the methods update;
- the driver: its dispatch table and its sequential loop, which stops at the
  first failure.

Some things are parameters of the model rather than part of it:

- The network is a map from URL to response.
- A response carries its parsed XML/JSON document and a body stream that
  either completes or breaks.
- The cryptographic digest is a function parameter `digest(algo, bytes)`.
- The Jenkins regular expression is a function parameter `matches(pattern, name)`.
- The outcome of the git tool is a function parameter.

Modules:

- `Versions`: `compareVersions` and `_prepareVersionStr`.
- `Http`: the `fetchSimple` URL and status rule.
- `Util`: the hash probe, header cleaning, atomic replace, the Content-MD5
  path and the path prefix.
- `Maven`, `PaperMC`, `Jenkins`, `GithubRelease` and `DevBukkitOrg`: one module
  per updater.
- `Driver`: `index.ts`.
- `MavenDownloader`: `maven-downloader/index.js`.
- Support modules:
  - `Wrappers`: option and result types.
  - `Interfaces`: items, repositories and errors.
  - `Documents`: parsed documents.
  - `Strings`: `trim`, digit parsing and number printing from JavaScript.
  - `Encoding`: hex and base64.
  - `Fs`: `node:fs` primitives over a map.

## Model

| member | source | states |
|---|---|---|
| Versions.StripSnapshot | docker/updater/util.ts:38-40 | exactly one trailing `-SNAPSHOT` is removed; a string without that suffix is left as it is |
| Versions.PrepareVersionStr | docker/updater/util.ts:38-40 | there is at least one part, and joining the parts with `.` gives back the version without its snapshot suffix |
| Versions.PreparedAs | docker/updater/util.ts:38-40 | a dot-free list of parts joined with `.` is split back into exactly those parts |
| Versions.JoinSplit | docker/updater/util.ts:39 | splitting on a separator and joining again gives back the original string |
| Versions.SplitJoin | docker/updater/util.ts:39 | joining separator-free parts and splitting again gives back the parts |
| Versions.VersionTuple | docker/updater/util.ts:43-48 | component k is the value of the leading decimal digits of part k, and 0 when there are none |
| Versions.CompareVersions | docker/updater/util.ts:42-56 | the loop's answer equals the recursive comparison, and holds exactly when the first differing zero-padded component is larger in v1 |
| Versions.CompareParts | docker/updater/util.ts:44-55 | the loop over the longer part list answers exactly as the recursive comparison of the two integer tuples from the first component on |
| MavenDownloader.CompareVersions | docker/maven-downloader/index.js:17-35 | the downloader's own copy gives the same answer as the updater's comparator on every pair of versions, and so is lexicographic order on the padded tuples |
| Versions.IsNewerIsLex | docker/updater/util.ts:43-55 | "newer" holds exactly when the padded tuples are lexicographically greater |
| Versions.IsNewerIrreflexive | docker/updater/util.ts:42-56 | no version is newer than itself |
| Versions.IsNewerAsymmetric | docker/updater/util.ts:42-56 | if v1 is newer than v2, then v2 is not newer than v1 |
| Versions.IsNewerTransitive | docker/updater/util.ts:42-56 | "newer" is transitive |
| Versions.IsNewerTrichotomy | docker/updater/util.ts:43-55 | two versions are mutually not newer exactly when they denote the same padded tuple |
| Versions.NotNewerTransitive | docker/updater/util.ts:42-56 | "not newer than" is transitive |
| Versions.EmptyVersionOldest | docker/updater/util.ts:42-56 | the empty string is never newer than any version |
| Versions.CompareVersionsIsVersionOrder | docker/updater/util.ts:42-56 | the comparison is irreflexive, treats "" as oldest, and is compatible with the folds' take-over rule |
| Versions.MissingComponentsAreZero | docker/updater/util.ts:44-48 | "1.2" and "1.2.0" are not newer than each other in either direction |
| Versions.SnapshotIgnored | docker/updater/util.ts:38-40 | "1.2.0-SNAPSHOT" and "1.2.0" are not newer than each other in either direction |
| Versions.NumericComponents | docker/updater/util.ts:47-48 | "1.10.0" is newer than "1.9.0", although it sorts before it as text |
| Versions.NonNumericIsZero | docker/updater/util.ts:47-48 | a component without leading digits counts as 0 |
| Versions.StripSnapshotOnce | docker/updater/util.ts:39 | only one `-SNAPSHOT` is stripped, so a doubled suffix keeps one copy |
| Strings.ParseNatToString | docker/updater/papermc_api.ts:46 | the decimal rendering of a build number parses back to that number |
| Strings.Trim | docker/updater/maven.ts:54 | the result is an infix of the input with only whitespace around it, and neither of its ends is whitespace |
| Strings.TrimIdempotent | docker/updater/maven.ts:54 | trimming twice is the same as trimming once |
| Strings.TrimSurrounded | docker/updater/maven.ts:54 | whitespace around a hash with no whitespace at its ends is removed, and the hash is kept exactly |
| Strings.StrLessTransitive | docker/updater/maven.ts:39 | the code-point order used for `localeCompare` is transitive |
| Strings.StrLessTotal | docker/updater/maven.ts:39 | of two different strings, one is less than the other |
| Strings.StrLessIrreflexive | docker/updater/maven.ts:39 | no string is less than itself |
| Encoding.ParseHexString | docker/updater/util.ts:83 | hex encoding of a digest can be decoded back to the digest |
| Encoding.HexInjective | docker/updater/util.ts:83 | different digests have different hex strings, so comparing hex strings compares digests |
| Encoding.EncodeDigest | docker/updater/util.ts:81-84 | the encoded string is empty exactly when the digest is empty |
| Interfaces.Param | docker/updater/interfaces.ts:5-12 | an optional parameter is present exactly when the map exists and holds the key, and then it is the mapped value |
| Interfaces.RequiredParamText | docker/updater/papermc_api.ts:21 | `params!.x` fails exactly when the params object is absent; a missing key reads as "undefined" |
| Http.ResolveUrl | docker/updater/util.ts:22-24 | a URL containing ':' is used verbatim, any other is appended to `repo.url` |
| Http.ResolveUrlIdempotent | docker/updater/util.ts:22-24 | when the base URL has a scheme, resolving twice is the same as resolving once |
| Http.FetchSimple | docker/updater/util.ts:21-35 | the request succeeds exactly when the resolved URL answers with status 200; otherwise it fails with the status or a network failure for that URL |
| Http.FetchAbsolute | docker/maven-downloader/index.js:37-47 | the request succeeds exactly when the URL answers with status 200, and otherwise reports the status or a network failure |
| Util.PathPrefix.SetPathPrefix | docker/updater/util.ts:138-141 | the module-level prefix is replaced by the argument |
| Util.PathPrefix.MakeAbsoluteDestination | docker/updater/util.ts:143-145 | the absolute destination is the current prefix followed by the item's destination, with nothing between them |
| Http.GetHeader | docker/updater/util.ts:88 | a header is found exactly when its lower-cased name is present, and then its value is the one stored under that name |
| Util.FileHash | docker/updater/util.ts:58-77 | a missing file gives the empty digest, an unreadable file is an error, and a readable file gives the digest of its bytes |
| Util.FileHashString | docker/updater/util.ts:80-84 | a missing file hashes to ""; a present file's string is empty only for an empty digest; read errors propagate |
| Util.StripHeaderNoise | docker/updater/util.ts:88 | the cleaned header value contains no CR, LF, tab, space, `"` or `'` |
| Util.StripHeaderNoiseKeepsClean | docker/updater/util.ts:88 | a value without such characters is left unchanged |
| Util.StripHeaderNoiseConcat | docker/updater/util.ts:88 | cleaning distributes over concatenation |
| Util.StripHeaderNoiseIdempotent | docker/updater/util.ts:88 | cleaning twice is the same as cleaning once |
| Util.StripQuotedEntityTag | docker/updater/util.ts:88 | the quotes delimiting an entity tag are removed |
| Util.RemoteDigest | docker/updater/util.ts:88 | an absent header reads as "" (corrected); a present header is cleaned |
| Util.RemoteDigestAsWritten | docker/updater/util.ts:88 | as written, an absent header makes the update fail; a present one gives the same value as the corrected reading |
| Util.AbsentHeaderAborts | docker/updater/util.ts:88-89 | without the header the code as written aborts, while the corrected reading gives "", which never skips |
| Util.MatchNeedsLocalFile | docker/updater/util.ts:89-94 | a skip needs an existing local file whose non-empty digest, encoded, equals the remote value |
| Util.AtomicReplace | docker/updater/util.ts:104-120 | the temp file ends up absent; a complete body becomes the destination's contents; a broken stream leaves the destination as it was; no other path changes |
| Util.ReplaceOutcome | docker/updater/util.ts:107-113 | the replacement succeeds exactly when the stream completes |
| Util.UnlinkSafe | docker/updater/util.ts:116-120 | the file is gone afterwards, whether or not it existed |
| Util.FetchToFileInternal | docker/updater/util.ts:104-114 | writing `file.tmp`, unlinking `file`, renaming and unlinking the temp file leave exactly the atomic-replace state |
| Util.FetchToFile | docker/updater/util.ts:100-102 | a failed request changes nothing; otherwise the response body replaces `pathPrefix + destination` atomically |
| Util.FetchEffectChangesOnly | docker/updater/util.ts:100-120 | a download touches only the destination and its `.tmp` sibling, and leaves no `.tmp` sibling behind unless it changed nothing |
| Util.DigestSyncSkips | docker/updater/util.ts:86-98 | the digest path skips exactly when the cleaned header is non-empty and equals the readable local MD5; anything but a download either fails or leaves the files alone; the files either stay as they were or are atomically replaced by the body |
| Util.ContentMD5SyncChangesOnly | docker/updater/util.ts:86-98 | the Content-MD5 path touches only the destination and its `.tmp` sibling |
| Util.FetchToFileWithContentMD5 | docker/updater/util.ts:86-98 | a skip happens exactly when the cleaned header is non-empty and equals the local MD5 in the given encoding; the file is hashed only for a non-empty header; otherwise it is replaced atomically |
| Maven.HashAlgo | docker/updater/maven.ts:7 | the repository's `hashAlgo` parameter, or `sha1` when it is absent |
| Maven.BasePath | docker/updater/maven.ts:9 | same length as the source; every ':' and '.' becomes '/'; every other character is kept |
| Maven.BasePathNoColon | docker/updater/maven.ts:9 | the base path contains no ':' |
| Maven.BaseRelative | docker/updater/maven.ts:9-12 | a base-path URL always resolves against `repo.url` |
| Maven.ArtifactId | docker/updater/maven.ts:10 | the artifactId is a suffix of the source with ':' right before it; on a single-line source it contains no ':', so it follows the last ':' |
| Maven.ArtifactIdOfCoordinate | docker/updater/maven.ts:10 | the artifactId of `group:name` is `name` |
| Maven.LatestVersionSpec | docker/updater/maven.ts:15-21 | the fold gives "" only when every version is ""; otherwise it gives the first version that no listed version is newer than |
| Maven.FirstLatestTakeOver | docker/updater/maven.ts:16-17 | a version newer than the current pick becomes the first latest of the longer list |
| Maven.FirstLatestKeep | docker/updater/maven.ts:18-19 | a version not newer than the current pick leaves the pick as the first latest |
| Maven.SelectVersion | docker/updater/maven.ts:15-25 | 'No version found' exactly when no listed version is non-empty; otherwise the earliest version that no listed version is newer than |
| Maven.JarCandidates | docker/updater/maven.ts:32-34 | the candidates are exactly the listed jar snapshots without a classifier |
| Maven.LatestSnapshotSpec | docker/updater/maven.ts:34-44 | the fold gives nothing only for no candidates; otherwise the earliest candidate with the greatest `updated` |
| Maven.FirstNewestTakeOver | docker/updater/maven.ts:39-40 | a strictly later `updated` takes over as the earliest greatest |
| Maven.FirstNewestKeep | docker/updater/maven.ts:39-43 | an `updated` that is not later keeps the current pick |
| Maven.SelectSnapshot | docker/updater/maven.ts:32-48 | 'No binary snapshot found' exactly when no jar snapshot without a classifier is listed; otherwise the earliest candidate with the greatest `updated` |
| Maven.SelectSnapshotTieRule | docker/updater/maven.ts:32-48 | over the document's own snapshot list: the chosen snapshot is a plain jar, no plain jar is later than it, and every plain jar before it in document order is strictly earlier |
| Maven.LatestCandidateIsChosen | docker/updater/maven.ts:32-44 | the filter followed by the fold picks a position of the unfiltered list that satisfies the tie rule |
| Maven.ListedVersions | docker/updater/maven.ts:13-15 | the version list of a Maven metadata document; any other document is malformed |
| Maven.ListedSnapshots | docker/updater/maven.ts:30-32 | the snapshot list of a Maven metadata document; any other document is malformed |
| Maven.ResolveSpec | docker/updater/maven.ts:7-54 | a resolved plan reads `base/maven-metadata.xml` and `base/version/maven-metadata.xml`, holds the selected version and snapshot, and points at `base/version/artifactId-value.jar`, `jarUrl.hashAlgo` and the trimmed published hash |
| Maven.ResolveNoVersion | docker/updater/maven.ts:15-25 | metadata that lists no versions, or only empty ones, ends the run with 'No version found' |
| Maven.ResolveNoSnapshot | docker/updater/maven.ts:46-48 | version metadata without a plain jar snapshot ends the run with 'No binary snapshot found' |
| Maven.JarUrlNoColon | docker/updater/maven.ts:50 | a jar URL built from colon-free parts is colon-free |
| Maven.JarUrlResolvesAgainstRepo | docker/updater/maven.ts:50-51 | for a single-line coordinate, and a listed version and snapshot value that carry no ':', the jar URL resolves against `repo.url` |
| Maven.JarUrlWithColonIsTakenAsIs | docker/updater/maven.ts:50-51 | a listed version holding ':' makes the jar URL absolute, so it is requested without `repo.url` in front |
| Maven.SyncJar | docker/updater/maven.ts:56-68 | a local read error aborts; an equal local hex digest skips; otherwise the jar replaces the destination atomically |
| Maven.Run | docker/updater/maven.ts:6-69 | a failed resolution changes nothing; otherwise the download is skipped exactly when the trimmed remote hash equals the local hex digest, and is otherwise replaced atomically at `pathPrefix + destination` |
| Maven.RunEffectChangesOnly | docker/updater/maven.ts:6-69 | a run touches only the destination and its `.tmp` sibling |
| Maven.AsWrittenTarget | docker/updater/maven.ts:68 | as written, the download target is the prefix followed by "undefined" |
| Maven.AsWrittenTargetIgnoresDestination | docker/updater/maven.ts:68 | as written, the download target never equals `prefix + destination` and is the same for every destination |
| PaperMC.LatestBuildSpec | docker/updater/papermc_api.ts:25-30 | the fold gives nothing only for an empty list; otherwise the earliest build with the maximum build number |
| PaperMC.SelectBuild | docker/updater/papermc_api.ts:25-33 | 'No build found!' exactly for an empty list; otherwise the earliest build with the maximum build number |
| PaperMC.SelectDownload | docker/updater/papermc_api.ts:35-38 | the download under the key if present, else 'No build download found!' |
| PaperMC.ListedBuilds | docker/updater/papermc_api.ts:23-25 | the builds of a PaperMC builds document; any other document is malformed |
| PaperMC.ResolveSpec | docker/updater/papermc_api.ts:21-38 | a resolved plan reads `projects/{source}/versions/{version}/builds`, holds the selected build and the configured download, and points at `{builds}/{build}/downloads/{name}` |
| PaperMC.ResolveWithoutParams | docker/updater/papermc_api.ts:21 | an item without params fails before any request |
| PaperMC.ResolveNoBuild | docker/updater/papermc_api.ts:31-33 | an empty builds list ends the run with 'No build found!' |
| PaperMC.MissingFileDownloads | docker/updater/papermc_api.ts:40-44 | a missing local file hashes to "", which never equals a non-empty published SHA-256 |
| PaperMC.Run | docker/updater/papermc_api.ts:20-47 | a failed resolution changes nothing; otherwise the download is skipped exactly when the published SHA-256 equals the local hex SHA-256, and is otherwise replaced atomically |
| PaperMC.RunEffectChangesOnly | docker/updater/papermc_api.ts:20-47 | a run touches only the destination and its `.tmp` sibling |
| Jenkins.ArtifactPattern | docker/updater/jenkins_artifact.ts:23 | reading `params['artifactRegex']` fails exactly when params are absent; otherwise the optional pattern |
| Jenkins.FirstMatch | docker/updater/jenkins_artifact.ts:25-27 | the index of the first artifact whose file name satisfies the pattern, or the list length when none does |
| Jenkins.FindArtifact | docker/updater/jenkins_artifact.ts:25-31 | 'No artifact found!' exactly when no artifact matches; otherwise the first one that matches |
| Jenkins.ListedArtifacts | docker/updater/jenkins_artifact.ts:21 | the artifacts of a Jenkins build document; any other document is malformed |
| Jenkins.Resolve | docker/updater/jenkins_artifact.ts:19-33 | the URL is `{source}/lastSuccessfulBuild/artifact/{relativePath}` of the first match in `{source}/lastSuccessfulBuild/api/json`; a failed request is reported first |
| Jenkins.Run | docker/updater/jenkins_artifact.ts:18-34 | a failed resolution changes nothing; otherwise the chosen artifact always replaces the destination atomically, with no hash check |
| Jenkins.RunEffectChangesOnly | docker/updater/jenkins_artifact.ts:18-34 | a run touches only the destination and its `.tmp` sibling |
| GithubRelease.FirstWanted | docker/updater/github_release.ts:19-22 | the index of the first wanted asset, or the list length when none is wanted |
| GithubRelease.FindAsset | docker/updater/github_release.ts:19-26 | with no target name the first asset, otherwise the first asset of exactly that name; 'No asset found!' when none |
| GithubRelease.ListedAssets | docker/updater/github_release.ts:17 | the assets of a release document; any other document is malformed |
| GithubRelease.Resolve | docker/updater/github_release.ts:16-26 | the asset chosen by `assetName` from `repos/{source}/releases/latest` |
| GithubRelease.OtherKeyTakesFirstAsset | docker/updater/github_release.ts:19-22 | an item configured with `asset` instead of `assetName` gets the first asset |
| GithubRelease.Run | docker/updater/github_release.ts:15-29 | a failed resolution changes nothing; otherwise the chosen asset goes through the Content-MD5 path with the `content-md5` header in base64 |
| GithubRelease.RunEffectChangesOnly | docker/updater/github_release.ts:15-29 | a run touches only the destination and its `.tmp` sibling |
| DevBukkitOrg.LatestFileUrlIsRelative | docker/updater/dev_bukkit_org.ts:6 | for a colon-free source, `projects/{source}/files/latest` resolves against `repo.url` |
| DevBukkitOrg.QuotedEtagMatches | docker/updater/dev_bukkit_org.ts:6 | a quoted ETag holding the local hex MD5 counts as a match |
| DevBukkitOrg.Run | docker/updater/dev_bukkit_org.ts:5-7 | the latest file goes through the digest path with the `etag` header in hex |
| Driver.RegisteredNamesMatchKeys | docker/updater/index.ts:13-20 | every key's updater reports that key as its name, and every updater is registered under its own name |
| Driver.Dispatch | docker/updater/index.ts:24-26 | an item's updater is `updaters[repos[item.repository].type]`; an unknown repository or type is an error |
| Driver.RunUpdater | docker/updater/index.ts:27 | for every kind of updater, the result and the new files are those of that updater's own run at `pathPrefix + destination`; the git updater leaves the files alone and reports the external tool's outcome |
| Driver.UpdateItem | docker/updater/index.ts:23-27 | the updater runs exactly when the lookup succeeds; a failed lookup changes nothing, otherwise the result and files are the dispatched updater's |
| Driver.ItemEffectChangesOnly | docker/updater/index.ts:23-27 | whatever its updater and outcome, an item's run touches only its own destination and that destination's `.tmp` sibling |
| Driver.CompletedRunsAt | docker/updater/index.ts:22-32 | every completed item's run succeeded and took the files from its trace entry to the next one |
| Driver.CompletedRunsSnoc | docker/updater/index.ts:22-32 | a successful run of the next item extends the completed prefix by one |
| Driver.UpdateAll | docker/updater/index.ts:22-32 | items start in declaration order, each at most once and only after a successful lookup; each completed item's run succeeded and its files are the next trace entry; the first failure, of a lookup or of a run, is the reported error and ends the loop with the files that run left; success means every item completed |
| MavenDownloader.CheckArgs | docker/maven-downloader/index.js:64-69 | a missing or empty package or destination is the usage error; otherwise the two arguments |
| MavenDownloader.NormalizePackage | docker/maven-downloader/index.js:71-75 | a non-empty alias wins; else a name without ':' goes into the default group; else the name is kept |
| MavenDownloader.BareNameKeepsArtifactId | docker/maven-downloader/index.js:71-78 | a bare name put into the default group has itself as artifactId |
| MavenDownloader.ResolveSpec | docker/maven-downloader/index.js:77-122 | a resolved plan reads `repo + path/maven-metadata.xml` and `repo + path/version/maven-metadata.xml`, holds the selected version and snapshot, and points at `repo + path/version/artifactId-value.jar` and its `.hashAlgo` file |
| MavenDownloader.LocalHash | docker/maven-downloader/index.js:49-61 | with the ENOENT catch at index.js:130-133: an unreadable destination is an error, a missing one has no hash, and a present one hashes to the same hex string as the updater's probe |
| MavenDownloader.MissingFileDownloads | docker/maven-downloader/index.js:124-134 | a missing destination has no hash, so the jar is always downloaded |
| MavenDownloader.DirectWrite | docker/maven-downloader/index.js:136-137 | the destination holds the complete body, or the bytes received before a broken stream; no other path changes |
| MavenDownloader.BrokenDownloadLosesOldFile | docker/maven-downloader/index.js:136-137 | unlike the updater's atomic replace, a broken download overwrites the previous file |
| MavenDownloader.FetchJar | docker/maven-downloader/index.js:118-137 | an unreadable destination aborts; an equal hex digest skips; otherwise the jar is written straight to the destination, and the result is that of the updater's replace (success exactly when the stream completes) |
| MavenDownloader.Run | docker/maven-downloader/index.js:63-139 | bad arguments and failed resolution change nothing; otherwise the hash check and direct write against the plan for the normalised package |

## Left out

- HTTP transport is not modelled: the keep-alive agent, the `Authorization` header, request options and redirects. A fetch is a lookup in a map from URL to response, and an absent URL is a network failure.
- XML and JSON decoding are not modelled. Responses carry their parsed document (`Documents`), and a document of the wrong shape is a malformed-response error rather than a JavaScript `TypeError`.
- Cryptographic digests are not modelled: `digest(algo, bytes)` is a parameter. Hex and base64 of the digest bytes are modelled.
- Stream events are not modelled: a body either completes with its bytes or breaks after some prefix.
- Strings.StrLess: `localeCompare` is modelled as code-point order, not locale collation. For Maven's digit-only `updated` timestamps the two agree.
- Strings.ParseIntOrZero: `parseInt` is modelled as "leading decimal digits, else 0". Leading whitespace, a sign and the precision loss of very large numbers are not modelled, and JavaScript numbers are unbounded integers here.
- Jenkins.Accepts: the regular expression is the parameter `matches(pattern, name)`. `new RegExp(undefined)` matches every name, so an absent `artifactRegex` accepts everything.
- docker/updater/git.ts only runs the external `git` tool, so its effect is the parameter `git(item, repo)`. Its `exists` call passes a string where util.ts:122 expects an item, and its `mkdir` is also left out.
- File system errors from writing, renaming or creating directories are not modelled. Only reads can fail, for paths the file system marks unreadable.
- docker/updater/config.ts and the downloader's `config.js` are static data and are not part of this model. `Driver.Config` and `MavenDownloader.DownloaderConfig` stand for them.
- `process.argv`, logging and the final error print are not modelled. They become arguments and results.
- Maven.SyncJar: maven.ts:57 calls `fileHashHex(item.destination, hashAlgo)`, which util.ts does not export. The model reads it as `fileHashString(item, hashAlgo, 'hex')` on the item's own destination.
- Maven.SyncJar: the model keeps one further consequence of the empty-digest rule. When the published hash file is blank and the local file is missing, both hashes are "", so the download is skipped.
- GithubRelease.Resolve: the configured GitHub item sets `asset`, but the updater reads `assetName`. The model follows the code, and `GithubRelease.OtherKeyTakesFirstAsset` shows that such an item falls back to the first asset.
- PaperMC.Resolve: `params!.download` is read after the build selection. By then params are known to be present, and a missing key is looked up as the text "undefined".

## Findings

| source | as written | input that shows it | evidently intended | confidence | as-written member | corrected member |
|---|---|---|---|---|---|---|
| docker/updater/maven.ts:68 | `fetchToFile(jarUrl, repo, item.destination)` passes a string where an item is expected, so the target path becomes `pathPrefix + "undefined"`. As written the module does not even load: line 2 imports `fileHashHex`, which util.ts does not export, and line 57 makes the same item/string mix-up. The line-68 target is reached only once lines 2 and 57 are repaired | any item, such as destination `plugins/a.jar` with prefix `/data/` | replace `pathPrefix + item.destination` | not executed | Maven.AsWrittenTargetIgnoresDestination | Maven.Run |
| docker/updater/util.ts:88 | `response.headers.get(md5Header).replace(...)` throws when the header is absent, so the update fails | a GitHub asset response without a `content-md5` header | treat an absent header as "" and download | not executed | Util.AbsentHeaderAborts | Util.FetchToFileWithContentMD5 |
