/**
 * `fetchSimple`: a relative URL is resolved against the repository's base
 * URL and any status other than 200 is an error. The network is a map from
 * absolute URL to the response it gives; an absent URL is a transport
 * failure.
 */
module Http {
  import opened Wrappers
  import opened Interfaces
  import opened Documents

  /** A response body as streamed to disk: it completes, or breaks after some bytes. */
  datatype Stream = Complete(bytes: seq<byte>) | Broken(partial: seq<byte>)

  /**
   * A response with the three views the updaters take of its body: the
   * text (`text()`), the parsed document (`json()` or XML parsing) and the
   * byte stream. Header names are stored in lower case.
   */
  datatype Response = Response(
    status: int,
    headers: map<string, string>,
    text: string,
    document: Document,
    body: Stream)

  type Remote = map<string, Response>

  /** The URL actually requested: one containing ':' is used as it is, any other is appended to the base. */
  function ResolveUrl(url: string, base: string): (r: string)
    ensures ':' in url ==> r == url
    ensures ':' !in url ==> r == base + url
  {
    if ':' in url then url else base + url
  }

  /** Against an absolute base (one with a scheme separator) resolution is idempotent. */
  lemma ResolveUrlIdempotent(url: string, base: string)
    requires ':' in base
    ensures ResolveUrl(ResolveUrl(url, base), base) == ResolveUrl(url, base)
  {
    if ':' !in url {
      assert (base + url)[|base| - |base|..|base|] == base;
      assert exists k :: 0 <= k < |base| && base[k] == ':';
      var k :| 0 <= k < |base| && base[k] == ':';
      assert (base + url)[k] == ':';
    }
  }

  /** A request to an absolute URL: transport failure, unexpected status, or the response. */
  function FetchAbsolute(url: string, remote: Remote): (r: Result<Response, Error>)
    ensures r.Success? <==> url in remote && remote[url].status == 200
    ensures r.Success? ==> r.value == remote[url]
    ensures url !in remote ==> r == Failure(NetworkFailure(url))
    ensures url in remote && remote[url].status != 200 ==> r == Failure(UnexpectedStatus(url, remote[url].status))
  {
    if url !in remote then Failure(NetworkFailure(url))
    else if remote[url].status != 200 then Failure(UnexpectedStatus(url, remote[url].status))
    else Success(remote[url])
  }

  /**
   * `fetchSimple(url, repo)`: the response at the resolved URL when it has
   * status 200; otherwise an error naming the resolved URL.
   */
  function FetchSimple(url: string, repo: Repository, remote: Remote): (r: Result<Response, Error>)
    ensures var u := ResolveUrl(url, repo.url);
      && (r.Success? <==> u in remote && remote[u].status == 200)
      && (r.Success? ==> r.value == remote[u])
      && (r.Failure? ==> r.error == if u in remote then UnexpectedStatus(u, remote[u].status) else NetworkFailure(u))
  {
    FetchAbsolute(ResolveUrl(url, repo.url), remote)
  }

  function ToLowerAscii(s: string): (r: string)
    ensures |r| == |s|
  {
    if |s| == 0 then ""
    else [if 'A' <= s[0] <= 'Z' then ((s[0] as int) + 32) as char else s[0]] + ToLowerAscii(s[1..])
  }

  /** `response.headers.get(name)`: header names match without regard to case. */
  function GetHeader(headers: map<string, string>, name: string): (r: Option<string>)
    ensures r.Some? <==> ToLowerAscii(name) in headers
    ensures r.Some? ==> r.value == headers[ToLowerAscii(name)]
  {
    var key := ToLowerAscii(name);
    if key in headers then Some(headers[key]) else None
  }
}
