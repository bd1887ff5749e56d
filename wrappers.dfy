/** Option and Result, as used throughout the chat model. */
module Wrappers {

  /** A value that may be absent (JavaScript `undefined`/`null`, Python `None`). */
  datatype Option<+T> = None | Some(value: T)

  /** The outcome of an operation that may raise. */
  datatype Result<+R, +E> = Ok(value: R) | Err(error: E)
}
