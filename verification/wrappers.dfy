/** Failure-compatible wrappers used across the model. */
module Wrappers {

  /** A value that may be absent: a markup element that was not found, a label that did not parse. */
  datatype Option<+T> = None | Some(value: T)

  /** A computation that either produced a value or stopped with an error. */
  datatype Result<+R, +E> = Success(value: R) | Failure(error: E)
}
