/** Failure-carrying result types shared by the rest of the model. */
module Wrappers {

  /** A value that may be absent: a Python `None`, or a library call that raised. */
  datatype Option<+T> = None | Some(value: T)

  /** Either a value or the error that stopped the computation (a raised exception). */
  datatype Result<+T, +E> = Success(value: T) | Failure(error: E)
}
