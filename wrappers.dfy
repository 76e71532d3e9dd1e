/** Failure-carrying results shared by every module of the model. */
module Wrappers {

  /** A value that may be absent: Java's null or an empty Optional. */
  datatype Option<+T> = None | Some(value: T)

  /** The outcome of an operation that returns a value or throws. */
  datatype Result<+R, +E> = Success(value: R) | Failure(error: E)

  /** The outcome of a void operation that completes or throws. */
  datatype Outcome<+E> = Pass | Fail(error: E)
}
