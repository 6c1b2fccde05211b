/** Failure-carrying result types shared by the whole model. */
module Wrappers {

  /** A value that may be missing (JavaScript's `undefined` / a failed lookup). */
  datatype Option<+T> = None | Some(value: T)

  /** The outcome of an operation that can throw: a value, or the error it throws. */
  datatype Result<+T, +E> = Ok(value: T) | Err(error: E)
}
