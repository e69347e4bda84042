/** Failure-carrying values used across the model. */
module Wrappers {

  /** A value that may be missing: the outcome of a parser that can fail. */
  datatype Option<+T> = None | Some(value: T)

  /** A value or the error that stopped its computation. */
  datatype Result<+T, +E> = Ok(value: T) | Err(error: E)
}
