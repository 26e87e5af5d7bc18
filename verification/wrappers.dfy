/** Failure-compatible wrappers used throughout the model. */
module Wrappers {

  /** A value, or None where an operation fails or would never finish. */
  datatype Option<+T> = None | Some(value: T)

  /** A value, or the error that stopped the computation. */
  datatype Result<+T, +E> = Success(value: T) | Failure(error: E)
}
