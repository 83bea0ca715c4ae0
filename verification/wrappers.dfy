/** Failure-carrying values shared by the other modules. */
module Wrappers {

  /** A value that may be absent: Go's `(T, error)` pairs and nil errors. */
  datatype Option<+T> = None | Some(value: T)

  /** A computation that either produced a value or stopped with an error. */
  datatype Result<+T, +E> = Ok(value: T) | Err(error: E)
}
