/**
 * The local filesystem as the updaters see it through `node:fs`: a map
 * from absolute path to file contents, plus the paths whose reading fails
 * with an error other than ENOENT (a directory, a permission problem).
 */
module Fs {
  import opened Wrappers
  import opened Interfaces

  /** `e.code === 'ENOENT'` versus every other error code. */
  datatype FsError = NotFound(path: string) | OtherError(path: string)

  class FileSystem {
    var files: map<string, seq<byte>>
    const unreadable: set<string>

    constructor (files0: map<string, seq<byte>>, unreadable0: set<string>)
      ensures files == files0 && unreadable == unreadable0
    {
      files := files0;
      unreadable := unreadable0;
    }

    /** Reads a whole file (`createReadStream` drained to its end). */
    method ReadFile(path: string) returns (r: Result<seq<byte>, FsError>)
      ensures path in unreadable ==> r == Failure(OtherError(path))
      ensures path !in unreadable && path !in files ==> r == Failure(NotFound(path))
      ensures path !in unreadable && path in files ==> r == Success(files[path])
    {
      if path in unreadable {
        r := Failure(OtherError(path));
      } else if path !in files {
        r := Failure(NotFound(path));
      } else {
        r := Success(files[path]);
      }
    }

    /** Creates or truncates `path` and writes `data` to it (`createWriteStream`). */
    method WriteFile(path: string, data: seq<byte>)
      modifies this`files
      ensures files == old(files)[path := data]
    {
      files := files[path := data];
    }

    /** `unlink(path)`: fails with ENOENT when there is nothing to remove. */
    method Unlink(path: string) returns (r: Option<FsError>)
      modifies this`files
      ensures files == old(files) - {path}
      ensures r.Some? <==> path !in old(files)
    {
      r := if path in files then None else Some(NotFound(path));
      files := files - {path};
    }

    /** `rename(from, to)`: moves the contents, replacing whatever `to` held. */
    method Rename(from: string, to: string)
      requires from in files
      modifies this`files
      ensures files == (old(files) - {from})[to := old(files)[from]]
    {
      files := (files - {from})[to := files[from]];
    }
  }
}
