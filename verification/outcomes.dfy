/** Optional values and results with a failure reason, used wherever the
    server's JavaScript returns `undefined` or throws. */
module Outcomes {

  datatype Option<+T> = None | Some(value: T)

  /** Why a file could not be served: `fs.readFileSync` threw for this path.
      (A pathname that cannot be decoded is a `None` pathname instead.) */
  datatype Failure = ReadFailed(path: seq<string>)

  datatype Result<+T> = Ok(value: T) | Err(failure: Failure)
}
