/** Option and Result: the absence of a value, and a value or an error. */
module Wrappers {

  /** A value that may be missing: a map lookup that may fail, a body that may not decode. */
  datatype Option<+T> = None | Some(value: T)

  /** The outcome of an operation that either produces a value or fails with an error. */
  datatype Result<+R, +E> = Success(value: R) | Failure(error: E)
}
