/** Optional values and results with an error branch, used throughout the model. */
module Wrappers {

  /** A value that may be missing: `undefined` or `null` in the original program. */
  datatype Option<+T> = None | Some(value: T)

  /** The outcome of an operation that may throw: a value, or the message of the error it throws. */
  datatype Result<+R, +E> = Success(value: R) | Failure(error: E)
}
