/** Failure-compatible wrappers shared by the modules of the Logger model. */
module Wrappers {

  /** A value that may be missing: JavaScript's `null`/`undefined` become None. */
  datatype Option<+T> = None | Some(value: T)

  /** The outcome of an operation that either succeeds or is rejected with a reason. */
  datatype Result<+T, +E> = Success(value: T) | Failure(error: E)
}
