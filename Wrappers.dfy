/** Option and Result values standing in for the source's `undefined` returns and thrown errors. */
module Wrappers {

  datatype Option<+T> = None | Some(value: T)

  /** A computation that either yields a value or fails with the message it would throw. */
  datatype Result<+R, +E> = Success(value: R) | Failure(error: E)
}
