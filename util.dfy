/**
 * The shared machinery of the updaters: the destination path prefix, the
 * hash probe of a local file, change detection against a digest carried in
 * a response header, and the atomic replace of a destination by a
 * downloaded body.
 */
module Util {
  import opened Wrappers
  import opened Interfaces
  import opened Http
  import opened Fs
  import opened Encoding

  /** A digest function `createHash(algo)` applied to a whole byte string. */
  type DigestFn = (string, seq<byte>) -> seq<byte>

  /** What a successful run did. */
  datatype Action = Downloaded | Skipped | Synced

  /** The files after an operation, with what the operation reported. */
  datatype Outcome = Outcome(result: Result<Action, Error>, files: map<string, seq<byte>>)

  /** The module-level `pathPrefix` that every relative destination is put under. */
  class PathPrefix {
    var prefix: string

    constructor ()
      ensures prefix == ""
    {
      prefix := "";
    }

    /** `setPathPrefix(p)`. */
    method SetPathPrefix(p: string)
      modifies this
      ensures prefix == p
    {
      prefix := p;
    }

    /** `makeAbsoluteDestination(item)`: the item's destination under the current prefix. */
    function MakeAbsoluteDestination(item: Item): (r: string)
      reads this
      ensures |r| == |prefix| + |item.destination|
      ensures r[..|prefix|] == prefix && r[|prefix|..] == item.destination
    {
      prefix + item.destination
    }
  }

  /** The temporary sibling a download is written to first. */
  function TempPath(file: string): string {
    file + ".tmp"
  }

  /**
   * The digest `fileHash` yields for a path of `files`: ENOENT gives the
   * empty digest, other read errors fail.
   */
  function LocalDigestIn(files: map<string, seq<byte>>, unreadable: set<string>, path: string, algo: string,
                         digest: DigestFn): Result<seq<byte>, Error>
  {
    if path in unreadable then Failure(ReadFailed(path))
    else if path !in files then Success([])
    else Success(digest(algo, files[path]))
  }

  /** `fileHashString` on `files`: the local digest in the given text form. */
  function LocalDigestStringIn(files: map<string, seq<byte>>, unreadable: set<string>, path: string, algo: string,
                               enc: HashEncoding, digest: DigestFn): Result<string, Error>
  {
    match LocalDigestIn(files, unreadable, path, algo, digest)
    case Failure(e) => Failure(e)
    case Success(d) => Success(EncodeDigest(enc, d))
  }

  /** The local digest of `path` in the current state of `fs`. */
  function LocalDigest(fs: FileSystem, path: string, algo: string, digest: DigestFn): Result<seq<byte>, Error>
    reads fs
  {
    LocalDigestIn(fs.files, fs.unreadable, path, algo, digest)
  }

  /** `fileHashString` in the current state of `fs`. */
  function LocalDigestString(fs: FileSystem, path: string, algo: string, enc: HashEncoding, digest: DigestFn): Result<string, Error>
    reads fs
  {
    LocalDigestStringIn(fs.files, fs.unreadable, path, algo, enc, digest)
  }

  /** `fileHash(item, algo)`: streams the destination through the digest. */
  method FileHash(fs: FileSystem, paths: PathPrefix, item: Item, algo: string, digest: DigestFn)
    returns (r: Result<seq<byte>, Error>)
    ensures var path := paths.MakeAbsoluteDestination(item);
      && (path in fs.unreadable ==> r == Failure(ReadFailed(path)))
      && (path !in fs.unreadable && path !in fs.files ==> r == Success([]))
      && (path !in fs.unreadable && path in fs.files ==> r == Success(digest(algo, fs.files[path])))
    ensures r == LocalDigest(fs, paths.MakeAbsoluteDestination(item), algo, digest)
  {
    var path := paths.MakeAbsoluteDestination(item);
    var read := fs.ReadFile(path);
    match read
    case Success(bytes) =>
      r := Success(digest(algo, bytes));
    case Failure(NotFound(_)) =>
      r := Success([]);
    case Failure(OtherError(p)) =>
      r := Failure(ReadFailed(p));
  }

  /**
   * `fileHashString(item, algo, encoding)`: a missing file gives "", and ""
   * comes only from a missing file or an empty digest.
   */
  method FileHashString(fs: FileSystem, paths: PathPrefix, item: Item, algo: string, enc: HashEncoding, digest: DigestFn)
    returns (r: Result<string, Error>)
    ensures var path := paths.MakeAbsoluteDestination(item);
      && (path in fs.unreadable ==> r == Failure(ReadFailed(path)))
      && (path !in fs.unreadable && path !in fs.files ==> r == Success(""))
      && (path !in fs.unreadable && path in fs.files ==> r.Success? && (r.value == "" <==> digest(algo, fs.files[path]) == []))
    ensures r == LocalDigestString(fs, paths.MakeAbsoluteDestination(item), algo, enc, digest)
  {
    var hash := FileHash(fs, paths, item, algo, digest);
    match hash
    case Failure(e) =>
      r := Failure(e);
    case Success(d) =>
      r := Success(EncodeDigest(enc, d));
  }

  /** The characters `/[\r\n\t "']/g` removes from a digest header. */
  predicate IsHeaderNoise(c: char) {
    c == '\r' || c == '\n' || c == '\t' || c == ' ' || c == '"' || c == '\''
  }

  /** `value.replace(/[\r\n\t "']/g, '')`. */
  function StripHeaderNoise(s: string): (r: string)
    ensures |r| <= |s|
    ensures forall k :: 0 <= k < |r| ==> !IsHeaderNoise(r[k])
  {
    if |s| == 0 then ""
    else (if IsHeaderNoise(s[0]) then "" else [s[0]]) + StripHeaderNoise(s[1..])
  }

  /** Nothing but the noise characters is removed: a clean value is kept as it is. */
  lemma {:induction false} StripHeaderNoiseKeepsClean(s: string)
    requires forall k :: 0 <= k < |s| ==> !IsHeaderNoise(s[k])
    ensures StripHeaderNoise(s) == s
  {
    if |s| > 0 {
      StripHeaderNoiseKeepsClean(s[1..]);
      assert [s[0]] + s[1..] == s;
    }
  }

  lemma {:induction false} StripHeaderNoiseConcat(a: string, b: string)
    ensures StripHeaderNoise(a + b) == StripHeaderNoise(a) + StripHeaderNoise(b)
  {
    if |a| > 0 {
      assert (a + b)[1..] == a[1..] + b;
      StripHeaderNoiseConcat(a[1..], b);
    } else {
      assert a + b == b;
    }
  }

  /** Stripping twice is stripping once. */
  lemma StripHeaderNoiseIdempotent(s: string)
    ensures StripHeaderNoise(StripHeaderNoise(s)) == StripHeaderNoise(s)
  {
    StripHeaderNoiseKeepsClean(StripHeaderNoise(s));
  }

  /** The double quotes delimiting an entity tag are not part of the compared value. */
  lemma StripQuotedEntityTag(tag: string)
    ensures StripHeaderNoise("\"" + tag + "\"") == StripHeaderNoise(tag)
  {
    StripHeaderNoiseConcat("\"" + tag, "\"");
    StripHeaderNoiseConcat("\"", tag);
    assert StripHeaderNoise("\"") == "";
  }

  /** The remote digest a header carries, an absent header read as the empty value. */
  function RemoteDigest(headers: map<string, string>, name: string): (r: string)
    ensures GetHeader(headers, name).None? ==> r == ""
    ensures GetHeader(headers, name).Some? ==> r == StripHeaderNoise(GetHeader(headers, name).value)
  {
    StripHeaderNoise(GetHeader(headers, name).GetOr(""))
  }

  /** The text as written calls `.replace` on `headers.get(name)`, which throws when the header is absent. */
  function RemoteDigestAsWritten(headers: map<string, string>, name: string): (r: Result<string, Error>)
    ensures r.Failure? <==> GetHeader(headers, name).None?
    ensures r.Success? ==> r.value == RemoteDigest(headers, name)
  {
    match GetHeader(headers, name)
    case None => Failure(HeaderMissing(name))
    case Some(v) => Success(StripHeaderNoise(v))
  }

  /** An absent digest header aborts the run as written, but means "download" once read as empty. */
  lemma AbsentHeaderAborts(headers: map<string, string>, name: string)
    requires ToLowerAscii(name) !in headers
    ensures RemoteDigestAsWritten(headers, name) == Failure(HeaderMissing(name))
    ensures !DigestsMatch(RemoteDigest(headers, name), "")
  {
  }

  /** The skip rule: a non-empty remote digest equal to the local one. */
  predicate DigestsMatch(remote: string, local: string) {
    remote != "" && remote == local
  }

  /**
   * A local file that is missing never matches: a match implies the file
   * exists and has a non-empty digest whose text form is the remote value.
   */
  lemma MatchNeedsLocalFile(fs: FileSystem, path: string, algo: string, enc: HashEncoding, digest: DigestFn, remote: string)
    requires LocalDigestString(fs, path, algo, enc, digest).Success?
    requires DigestsMatch(remote, LocalDigestString(fs, path, algo, enc, digest).value)
    ensures path in fs.files
    ensures digest(algo, fs.files[path]) != [] && remote == EncodeDigest(enc, digest(algo, fs.files[path]))
  {
  }

  /**
   * The files after an atomic replace of `file`: a completed body lands at
   * `file`, a broken one leaves `file` as it was; the temporary sibling is
   * gone either way and no other path changes.
   */
  function AtomicReplace(files: map<string, seq<byte>>, file: string, body: Stream): (r: map<string, seq<byte>>)
    ensures TempPath(file) !in r
    ensures body.Complete? ==> file in r && r[file] == body.bytes
    ensures body.Broken? ==> (file in r <==> file in files) && (file in files ==> r[file] == files[file])
    ensures forall p :: p != file && p != TempPath(file) ==> (p in r <==> p in files) && (p in r ==> r[p] == files[p])
  {
    match body
    case Complete(bytes) => (files - {TempPath(file)})[file := bytes]
    case Broken(_) => files - {TempPath(file)}
  }

  /** What a replace or a direct write reports: success when the body completed. */
  function ReplaceOutcome(body: Stream, file: string): (r: Result<Action, Error>)
    ensures r.Success? <==> body.Complete?
  {
    if body.Complete? then Success(Downloaded) else Failure(StreamFailed(file))
  }

  /** The outcome of an atomic replace of `file` by `body`. */
  function ReplaceEffect(files: map<string, seq<byte>>, file: string, body: Stream): Outcome {
    Outcome(ReplaceOutcome(body, file), AtomicReplace(files, file, body))
  }

  /** `fetchToFile`: a failed request changes nothing; otherwise the body replaces `file` atomically. */
  function FetchEffect(files: map<string, seq<byte>>, file: string, url: string, repo: Repository, remote: Remote): Outcome {
    match FetchSimple(url, repo, remote)
    case Failure(e) => Outcome(Failure(e), files)
    case Success(resp) => ReplaceEffect(files, file, resp.body)
  }

  /**
   * `after` differs from `files` only at `file` and its temporary sibling,
   * and the temporary sibling is left behind only when nothing changed.
   */
  ghost predicate ChangesOnly(files: map<string, seq<byte>>, after: map<string, seq<byte>>, file: string) {
    && (forall p :: p != file && p != TempPath(file) ==> (p in after <==> p in files) && (p in after ==> after[p] == files[p]))
    && (TempPath(file) in after ==> after == files)
  }

  lemma FetchEffectChangesOnly(files: map<string, seq<byte>>, file: string, url: string, repo: Repository, remote: Remote)
    ensures ChangesOnly(files, FetchEffect(files, file, url, repo, remote).files, file)
  {
  }

  /** `_unlinkSafe(file)`: removes the file, ignoring every error. */
  method UnlinkSafe(fs: FileSystem, file: string)
    modifies fs`files
    ensures fs.files == old(fs.files) - {file}
  {
    var _ := fs.Unlink(file);
  }

  /**
   * `fetchToFileInternal(resp, item)`: write the body to `file.tmp`, then
   * unlink `file` and rename the temporary file over it; the temporary file
   * is unlinked on every exit.
   */
  method FetchToFileInternal(fs: FileSystem, paths: PathPrefix, body: Stream, item: Item)
    returns (r: Result<Action, Error>)
    modifies fs`files
    ensures var file := paths.MakeAbsoluteDestination(item);
      fs.files == AtomicReplace(old(fs.files), file, body) && r == ReplaceOutcome(body, file)
  {
    var file := paths.MakeAbsoluteDestination(item);
    var tempFile := TempPath(file);
    assert tempFile != file by {
      assert |tempFile| > |file|;
    }
    match body {
      case Complete(bytes) =>
        fs.WriteFile(tempFile, bytes);
        UnlinkSafe(fs, file);
        fs.Rename(tempFile, file);
        r := Success(Downloaded);
      case Broken(partial) =>
        fs.WriteFile(tempFile, partial);
        r := Failure(StreamFailed(file));
    }
    UnlinkSafe(fs, tempFile);
  }

  /** `fetchToFile(url, repo, item)`: fetch, then replace the destination atomically. */
  method FetchToFile(fs: FileSystem, paths: PathPrefix, url: string, repo: Repository, item: Item, remote: Remote)
    returns (r: Result<Action, Error>)
    modifies fs`files
    ensures Outcome(r, fs.files) == FetchEffect(old(fs.files), paths.MakeAbsoluteDestination(item), url, repo, remote)
  {
    var response := FetchSimple(url, repo, remote);
    if response.Failure? {
      return Failure(response.error);
    }
    r := FetchToFileInternal(fs, paths, response.value.body, item);
  }

  /**
   * The effect of the digest-header comparison on a fetched response: with a
   * non-empty cleaned header value a local read error aborts and an equal
   * local MD5 skips; in every other case the body replaces `file`
   * atomically.
   */
  function DigestSync(files: map<string, seq<byte>>, unreadable: set<string>, file: string, resp: Response,
                      header: string, enc: HashEncoding, digest: DigestFn): Outcome
  {
    var remoteMD5 := RemoteDigest(resp.headers, header);
    var local := LocalDigestStringIn(files, unreadable, file, "md5", enc, digest);
    if remoteMD5 != "" && local.Failure? then Outcome(Failure(local.error), files)
    else if remoteMD5 != "" && DigestsMatch(remoteMD5, local.value) then Outcome(Success(Skipped), files)
    else ReplaceEffect(files, file, resp.body)
  }

  /** The whole Content-MD5 path: a failed request changes nothing, otherwise `DigestSync` on the response. */
  function ContentMD5Sync(files: map<string, seq<byte>>, unreadable: set<string>, file: string, url: string,
                          repo: Repository, header: string, enc: HashEncoding, remote: Remote, digest: DigestFn): Outcome
  {
    match FetchSimple(url, repo, remote)
    case Failure(e) => Outcome(Failure(e), files)
    case Success(resp) => DigestSync(files, unreadable, file, resp, header, enc, digest)
  }

  /**
   * A skip happens exactly when the cleaned header value is non-empty and
   * equals the local digest in the given encoding; a skip or an error leaves
   * the files alone, and a download replaces `file` atomically.
   */
  lemma DigestSyncSkips(files: map<string, seq<byte>>, unreadable: set<string>, file: string, resp: Response,
                        header: string, enc: HashEncoding, digest: DigestFn)
    ensures var o := DigestSync(files, unreadable, file, resp, header, enc, digest);
      var local := LocalDigestStringIn(files, unreadable, file, "md5", enc, digest);
      && (o.result == Success(Skipped) <==> RemoteDigest(resp.headers, header) != "" && local.Success?
                                              && RemoteDigest(resp.headers, header) == local.value)
      && (o.result != Success(Downloaded) ==> o.result.Failure? || o.files == files)
      && (o.files == files || o.files == AtomicReplace(files, file, resp.body))
  {
  }

  lemma ContentMD5SyncChangesOnly(files: map<string, seq<byte>>, unreadable: set<string>, file: string, url: string,
                                  repo: Repository, header: string, enc: HashEncoding, remote: Remote, digest: DigestFn)
    ensures ChangesOnly(files, ContentMD5Sync(files, unreadable, file, url, repo, header, enc, remote, digest).files, file)
  {
  }

  /**
   * `fetchToFileWithContentMD5(url, repo, item, header, encoding)`: the
   * download is skipped exactly when the cleaned header value is non-empty
   * and equals the local MD5 in the given encoding; the local file is only
   * hashed when the header value is non-empty.
   */
  method FetchToFileWithContentMD5(fs: FileSystem, paths: PathPrefix, url: string, repo: Repository, item: Item,
                                   header: string, enc: HashEncoding, remote: Remote, digest: DigestFn)
    returns (r: Result<Action, Error>)
    modifies fs`files
    ensures Outcome(r, fs.files) ==
      ContentMD5Sync(old(fs.files), fs.unreadable, paths.MakeAbsoluteDestination(item), url, repo, header, enc, remote, digest)
  {
    var response := FetchSimple(url, repo, remote);
    if response.Failure? {
      return Failure(response.error);
    }
    var remoteMD5 := RemoteDigest(response.value.headers, header);
    if remoteMD5 != "" {
      var fileMD5 := FileHashString(fs, paths, item, "md5", enc, digest);
      if fileMD5.Failure? {
        return Failure(fileMD5.error);
      }
      if remoteMD5 == fileMD5.value {
        return Success(Skipped);
      }
    }
    r := FetchToFileInternal(fs, paths, response.value.body, item);
  }
}
