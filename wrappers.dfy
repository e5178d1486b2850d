/** Option and Result datatypes used across the model. */
module Wrappers {

  /** A value that may be missing. */
  datatype Option<+T> = None | Some(value: T)

  /** The outcome of an operation that may throw: a value, or the exception it raised. */
  datatype Result<+R, +E> = Success(value: R) | Failure(error: E)
}
