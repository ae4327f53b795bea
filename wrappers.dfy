/** Optional values and typed failures shared by the badge and certificate modules. */
module Wrappers {

  /** A value that may be absent (a missing request field or schema path). */
  datatype Option<+T> = None | Some(value: T)

  /** The outcome of an operation that either yields a value or fails with a typed error. */
  datatype Result<+T, +E> = Ok(value: T) | Err(error: E)
}
