/** Failure-compatible wrappers used by every operation of the library. */
module Wrappers {

  /** A value that may be absent, such as a nullable column or an optional request field. */
  datatype Option<+T> = None | Some(value: T)

  /** The outcome of a request: the committed value, or the error that rolled it back. */
  datatype Result<+R, +E> = Success(value: R) | Failure(error: E)
}
