/** Option and Result datatypes used for the widget's "nothing there" and error paths. */
module Wrappers {

  /** A value that may be absent, as Python's `None`. */
  datatype Option<+T> = None | Some(value: T)

  /** The outcome of an operation that either succeeds or stops with an error. */
  datatype Result<+T, +E> = Success(value: T) | Failure(error: E)
}
