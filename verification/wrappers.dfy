/** Failure-carrying return types: the model's stand-in for Python exceptions. */
module Wrappers {

  /** A value that may be absent. */
  datatype Option<+T> = None | Some(value: T)

  /** Either a computed value or the error the source would have raised. */
  datatype Result<+R, +E> = Success(value: R) | Failure(error: E)
}
