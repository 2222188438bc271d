/** An optional value, and a value-or-error. */
module Wrappers {

  datatype Option<+T> = None | Some(value: T)

  /** The outcome of an operation that can raise: `Success` or the error it raised. */
  datatype Result<+R, +E> = Success(value: R) | Failure(error: E)
}
