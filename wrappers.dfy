/** The optional-value and success-or-error types shared by the modules of this model. */
module Wrappers {

  /** A value that may be absent: Python's `X | None`. */
  datatype Option<+T> = None | Some(value: T)

  /** The value of an operation that either succeeds or stops with an error. */
  datatype Result<+R, +E> = Success(value: R) | Failure(error: E)
}
