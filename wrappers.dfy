/** Option and Result values for the lookups and loads that can fail. */
module Wrappers {

  /** A value that may be absent (Java's `null`). */
  datatype Option<+T> = None | Some(value: T)

  /** A computation that either yields a value or fails with an error (a thrown Java exception). */
  datatype Result<+T, +E> = Ok(value: T) | Err(error: E)
}
