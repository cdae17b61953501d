/** Optional values and results with an error, as used throughout the model. */
module Wrappers {

  /** A value that may be absent (JavaScript's `null`/`undefined`). */
  datatype Option<T> = None | Some(value: T)

  /** A computation that either succeeds or throws. */
  datatype Result<T, E> = Ok(value: T) | Err(error: E)
}
