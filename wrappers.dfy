/** Optional values and results shared by the ingest model. */
module Wrappers {

  /** A value that may be absent: an empty cell, a date that did not parse, a key not yet seen. */
  datatype Option<+T> = None | Some(value: T)

  /** The outcome of an operation that can fail with an error the caller shows to the user. */
  datatype Result<+T, +E> = Success(value: T) | Failure(error: E)
}
