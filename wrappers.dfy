/** Failure-carrying result types shared by the other modules. */
module Wrappers {

  /** A value that may be absent. */
  datatype Option<+T> = None | Some(value: T)

  /** The outcome of an operation that either succeeds with a value or fails with an error. */
  datatype Result<+T, +E> = Ok(value: T) | Err(error: E)
}
