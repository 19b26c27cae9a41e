/** The two failure types the models share. */
module Wrappers {
  datatype Option<+T> = None | Some(value: T)

  /** A thrown error, a panic or an Err is a Failure. */
  datatype Result<+T, +E> = Success(value: T) | Failure(error: E)
}
