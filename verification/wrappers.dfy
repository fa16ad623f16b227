/** Failure-compatible wrappers shared by every module of the model. */
module Wrappers {

  /** A value that may be absent: Python's `None` or a SQL NULL. */
  datatype Option<+T> = None | Some(value: T)

  /** The outcome of a call that may raise: `Failure` carries the exception. */
  datatype Result<+T, +E> = Success(value: T) | Failure(error: E)
}
