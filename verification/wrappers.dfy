/** Failure-compatible wrappers used across the labeller model. */
module Wrappers {

  /** An optional value: a pointer coordinate that may be missing, a scan that may find nothing. */
  datatype Option<+T> = None | Some(value: T)

  /** A computation that either succeeds with a value or fails with an error. */
  datatype Result<+R, +E> = Success(value: R) | Failure(error: E)
}
