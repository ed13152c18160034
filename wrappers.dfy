/** Wrappers used across the model. */
module Wrappers {

  /** A value that may be absent (a `null` read from storage, a failed match). */
  datatype Option<+T> = None | Some(value: T)

  /** A computation that either yields a value or fails with an error (a thrown exception). */
  datatype Result<+T, +E> = Ok(value: T) | Err(error: E)
}
