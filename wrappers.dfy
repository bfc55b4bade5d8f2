/** Failure-compatible result types used throughout the model. */
module Wrappers {

  datatype Option<+T> = None | Some(value: T)

  /** A computation that either produced a value or failed with an error. */
  datatype Result<+R, +E> = Success(value: R) | Failure(error: E)
}
