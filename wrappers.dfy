/** Option and Result, the failure-carrying values used throughout the model. */
module Wrappers {

  /** A value that may be absent: Python's `None`, or a SQL NULL column. */
  datatype Option<+T> = None | Some(value: T)

  /** The outcome of a request handler: a value, or the error it raises. */
  datatype Result<+T, +E> = Ok(value: T) | Err(error: E)
}
