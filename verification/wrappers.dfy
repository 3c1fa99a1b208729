/** Failure-compatible wrappers used where the program returns null or throws. */
module Wrappers {

  /** A value that may be absent, as a nullable reference in the program. */
  datatype Option<+T> = None | Some(value: T)

  /** The outcome of an operation that either produces a value or fails. */
  datatype Result<+T, +E> = Success(value: T) | Failure(error: E)
}
