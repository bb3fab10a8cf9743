/** Failure-carrying values shared by the extension modules. */
module Wrappers {

  /** A value that may be absent (the engine hands back `null`). */
  datatype Option<+T> = None | Some(value: T)

  /** The outcome of an operation that either produces a value or raises an error. */
  datatype Result<+R, +E> = Success(value: R) | Failure(error: E)
}
