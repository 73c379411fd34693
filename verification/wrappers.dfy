/** Failure-carrying results used throughout the model. */
module Wrappers {

  /** A value that may be absent (a missing file, a missing key). */
  datatype Option<+T> = None | Some(value: T)

  /** Either a computed value or the error that stopped the computation. */
  datatype Result<+T, +E> = Success(value: T) | Failure(error: E)
}
