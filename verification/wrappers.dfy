/** Option and Result datatypes used by the tab store model. */
module Wrappers {

  /** A value that may be absent: stands in for JavaScript's `undefined`. */
  datatype Option<+T> = None | Some(value: T)

  /** The outcome of an operation that may throw instead of completing. */
  datatype Result<+T, +E> = Success(value: T) | Failure(error: E)
}
