/** Failure-carrying values shared by the scraper modules. */
module Wrappers {

  /** A value that may be absent: Python's `None` versus a present value. */
  datatype Option<+T> = None | Some(value: T)

  /** The outcome of a step that may raise: a value, or the error that was raised. */
  datatype Result<+T, +E> = Ok(value: T) | Err(error: E)
}
