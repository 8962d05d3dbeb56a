/** Option and Result, the failure-carrying datatypes used throughout the model. */
module Wrappers {

  /** A value that may be missing, such as an HTTP header that was not sent. */
  datatype Option<+T> = None | Some(value: T)

  /** The outcome of an operation that either answers or raises an error. */
  datatype Result<+T, +E> = Ok(value: T) | Err(error: E)
}
