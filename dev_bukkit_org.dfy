/**
 * The dev.bukkit.org updater: the latest file of a project, synced through
 * the digest-header comparison with the ETag as the remote MD5 in hex.
 */
module DevBukkitOrg {
  import opened Wrappers
  import opened Interfaces
  import opened Encoding
  import opened Http
  import opened Fs
  import opened Util

  /** `projects/${source}/files/latest`. */
  function LatestFileUrl(source: string): string {
    "projects/" + source + "/files/latest"
  }

  /** The URL is relative, so it is always fetched from the repository's base URL. */
  lemma LatestFileUrlIsRelative(source: string, repo: Repository)
    requires ':' !in source
    ensures ResolveUrl(LatestFileUrl(source), repo.url) == repo.url + LatestFileUrl(source)
  {
    var u := LatestFileUrl(source);
    assert u == "projects/" + source + "/files/latest";
    forall k | 0 <= k < |u| ensures u[k] != ':' {
      if 9 <= k < 9 + |source| {
        assert u[k] == source[k - 9];
      }
    }
  }

  /**
   * The ETag `"<hex md5>"` loses its delimiting quotes, so a strong entity tag
   * holding the file's hex MD5 matches it.
   */
  lemma QuotedEtagMatches(headers: map<string, string>, md5Hex: string)
    requires "etag" in headers && headers["etag"] == "\"" + md5Hex + "\""
    requires forall k :: 0 <= k < |md5Hex| ==> !IsHeaderNoise(md5Hex[k])
    requires md5Hex != ""
    ensures DigestsMatch(RemoteDigest(headers, "etag"), md5Hex)
  {
    assert ToLowerAscii("etag") == "etag";
    StripQuotedEntityTag(md5Hex);
    StripHeaderNoiseKeepsClean(md5Hex);
  }

  /** The effect of a run: the latest file through the digest path, with the ETag as the hex MD5. */
  function RunEffect(files: map<string, seq<byte>>, unreadable: set<string>, file: string, item: Item,
                     repo: Repository, remote: Remote, digest: DigestFn): Outcome
  {
    ContentMD5Sync(files, unreadable, file, LatestFileUrl(item.source), repo, "etag", Hex, remote, digest)
  }

  /** `DevBukkitOrgUpdater.run`. */
  method Run(fs: FileSystem, paths: PathPrefix, item: Item, repo: Repository, remote: Remote, digest: DigestFn)
    returns (r: Result<Action, Error>)
    modifies fs`files
    ensures Outcome(r, fs.files) ==
      RunEffect(old(fs.files), fs.unreadable, paths.MakeAbsoluteDestination(item), item, repo, remote, digest)
  {
    r := FetchToFileWithContentMD5(fs, paths, LatestFileUrl(item.source), repo, item, "etag", Hex, remote, digest);
  }

  function GetName(): string {
    "dev_bukkit_org"
  }
}
