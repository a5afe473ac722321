/** Option and Result values used in place of `undefined` and thrown errors. */
module Wrappers {

  /** A value that may be absent (JavaScript's `undefined`). */
  datatype Option<+T> = None | Some(value: T)

  /** Either the value an operation produced or the error it raised. */
  datatype Result<+T, +E> = Ok(value: T) | Err(error: E)
}
