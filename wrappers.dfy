/** Failure-compatible wrappers used for nullable values and per-item outcomes. */
module Wrappers {

  /** A value that may be absent (a nullable reference on the JavaScript side). */
  datatype Option<+T> = None | Some(value: T)

  /** The outcome of a step that either yields a value or reports why it did not. */
  datatype Result<+R, +E> = Success(value: R) | Failure(error: E)
}
