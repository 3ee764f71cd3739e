/** Option and Result: the optional values and the failing computations of the pipeline. */
module Wrappers {

  /** A value that may be missing (a failed frame read, a malformed data URL). */
  datatype Option<+T> = None | Some(value: T)

  /** A computation that either produces a value or fails with a message (a raised exception). */
  datatype Result<+R, +E> = Success(value: R) | Failure(error: E)
}
