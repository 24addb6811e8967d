/** Option and Result, the failure-carrying values used throughout the model. */
module Wrappers {

  /** A value that may be absent (`undefined` in the source). */
  datatype Option<+T> = None | Some(value: T)

  /** Either a value or the error that a thrown exception would carry. */
  datatype Result<+T, +E> = Ok(value: T) | Err(error: E)
}
