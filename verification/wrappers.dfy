/** Failure-carrying values used by every other module. */
module Wrappers {

  /** A value that may be absent (JavaScript `undefined`, Python `None`). */
  datatype Option<+T> = None | Some(value: T)

  /** A computation that either succeeds with a value or fails with an error. */
  datatype Result<+T, +E> = Ok(value: T) | Err(error: E)
}
