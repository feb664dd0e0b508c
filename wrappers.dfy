/** Option and Result, the outcome types used across the model. */
module Wrappers {

  /** A decoded value, or nothing when decoding failed. */
  datatype Option<+T> = None | Some(value: T)

  /** A value, or the reason it could not be produced. */
  datatype Result<+R, +E> = Ok(value: R) | Err(error: E)
}
