/** Option and Result, the error-carrying shapes used throughout the model. */
module Wrappers {

  datatype Option<+T> = None | Some(value: T)

  /** Go's `(value, error)` pair: either a value or the error that stopped the call. */
  datatype Result<+T, +E> = Ok(value: T) | Err(error: E)
}
