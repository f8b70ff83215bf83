/** The optional-value and success-or-error wrappers used across the model. */
module Wrappers {

  /** A value that may be absent (a missing attribute, an unbound variable). */
  datatype Option<+T> = None | Some(value: T)

  /** The outcome of an operation that may raise: a value or the error raised. */
  datatype Result<+R, +E> = Success(value: R) | Failure(error: E)
}
