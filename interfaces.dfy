/**
 * The configuration records every updater receives (a repository descriptor
 * and a sync item), the byte type of file contents, and the errors a run can
 * end with.
 */
module Interfaces {
  import opened Wrappers

  newtype byte = x: int | 0 <= x < 256

  /** An optional string-to-string parameter object (`params?: {...}`). */
  type Params = Option<map<string, string>>

  datatype Repository = Repository(
    kind: string,                    // `type`: selects the updater
    url: string,                     // base URL relative paths are resolved against
    authorization: Option<string>,   // sent as the Authorization header (not modelled)
    params: Params)

  datatype Item = Item(
    repository: string,              // key into the repository table
    source: string,                  // updater-specific locator
    destination: string,             // path relative to the path prefix
    params: Params)

  datatype Error =
    | NetworkFailure(url: string)                  // no response at all
    | UnexpectedStatus(url: string, status: int)   // "Status code ... for URL ..."
    | MalformedResponse(url: string)               // body does not have the expected shape
    | NoVersionFound
    | NoBinarySnapshotFound
    | NoBuildFound
    | NoBuildDownloadFound
    | NoArtifactFound
    | NoAssetFound
    | ReadFailed(path: string)                     // a file read error other than ENOENT
    | StreamFailed(path: string)                   // the body stream broke while writing
    | ParamsMissing                                // property read on an undefined `params`
    | HeaderMissing(name: string)                  // `null.replace(...)` on an absent header
    | UnknownRepository(key: string)               // `config.repos[...]` is undefined
    | UnknownRepositoryType(kind: string)          // `updaters[...]` is undefined
    | ExternalCommandFailed                        // the git tool failed
    | Usage                                        // "mvnget PACKAGE DEST"

  /** `params?.[key]`: absent when the object or the key is absent. */
  function Param(params: Params, key: string): (r: Option<string>)
    ensures r.Some? <==> params.Some? && key in params.value
    ensures r.Some? ==> r.value == params.value[key]
  {
    if params.Some? && key in params.value then Some(params.value[key]) else None
  }

  /**
   * `params!.[key]` used in a template string: reading a property of an
   * undefined object throws a TypeError, and an absent key renders as the
   * text "undefined".
   */
  function RequiredParamText(params: Params, key: string): (r: Result<string, Error>)
    ensures r.Failure? <==> params.None?
    ensures r.Failure? ==> r.error == ParamsMissing
    ensures r.Success? ==> r.value == Param(params, key).GetOr("undefined")
  {
    match params
    case None => Failure(ParamsMissing)
    case Some(m) => Success(if key in m then m[key] else "undefined")
  }
}
