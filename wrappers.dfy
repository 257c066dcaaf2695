/** Optional values and results with an error, as used by both cores. */
module Wrappers {

  /** A value that may be absent (a Java `Optional`, or a field left `null`). */
  datatype Option<+T> = None | Some(value: T)

  /** The outcome of an operation that may raise an exception. */
  datatype Result<+T, +E> = Ok(value: T) | Err(error: E)
}
