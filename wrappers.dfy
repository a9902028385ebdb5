/** Option and Result values used for the system's optional fields and error returns. */
module Wrappers {

  datatype Option<+T> = None | Some(value: T)

  /** An operation that either succeeds with a value or fails with an error (a raised exception). */
  datatype Result<+T, +E> = Ok(value: T) | Err(error: E)
}
