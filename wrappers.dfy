/** Option and Result, the two failure-carrying datatypes the model uses in
    place of Java's null and of thrown exceptions. */
module Wrappers {

  /** A value that may be absent (Java's null / Optional.empty()). */
  datatype Option<+T> = None | Some(value: T)

  /** The outcome of an operation that either returns a value or throws. */
  datatype Result<+R, +E> = Success(value: R) | Failure(error: E)
}
