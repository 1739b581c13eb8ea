/** Failure-carrying datatypes used by the extension model. */
module Wrappers {

  /** A value that may be absent (Python's `None`, a Java `null`). */
  datatype Option<+T> = None | Some(value: T)

  /** The outcome of an operation that either produces a value or stops with an error. */
  datatype Result<+R, +E> = Success(value: R) | Failure(error: E)
}
