/** `Option` and `Result` datatypes shared by the whole model. */
module Wrappers {

  /** A value that may be missing. */
  datatype Option<+T> = None | Some(value: T)

  /** The value an operation returns, or the exception it lets escape. */
  datatype Result<+T, +E> = Success(value: T) | Failure(error: E)
}
