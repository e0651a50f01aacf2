/** Failure-compatible wrappers shared by the monitor model. */
module Wrappers {

  /** A value that may be absent; stands for Python's `None`. */
  datatype Option<+T> = None | Some(value: T)

  /** The result of a computation that may raise: either a value or the raised error. */
  datatype Result<+R, +E> = Success(value: R) | Failure(error: E)
}
