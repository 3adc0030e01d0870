/** Optional values and results with an error, as used across the model. */
module Wrappers {

  /** A value that may be absent: an undefined JSON field, a SQL NULL. */
  datatype Option<+T> = None | Some(value: T)

  /** The outcome of a step that may be rejected with an error value. */
  datatype Result<+R, +E> = Ok(value: R) | Err(error: E)
}
