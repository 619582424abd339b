/** Failure-compatible result types used throughout the model. */
module Wrappers {

  datatype Option<+T> = None | Some(value: T)

  /** The outcome of an operation that the source ends with a panic on failure. */
  datatype Result<+T, +E> = Ok(value: T) | Err(error: E)
}
