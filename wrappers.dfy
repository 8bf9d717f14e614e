/** Failure-carrying values used in place of the PHP exceptions of the model. */
module Wrappers {

  datatype Option<+T> = None | Some(value: T)

  datatype Result<+R, +E> = Success(value: R) | Failure(error: E)

  /** The outcome of an operation that changes state and may fail. */
  datatype Outcome<+E> = Pass | Fail(error: E)
}
