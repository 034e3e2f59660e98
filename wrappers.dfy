/** Failure-carrying wrappers shared by the other modules. */
module Wrappers {

  datatype Option<+T> = None | Some(value: T)

  /** The outcome of an operation that the Python code lets raise an exception. */
  datatype Result<+R, +E> = Success(value: R) | Failure(error: E)
}
