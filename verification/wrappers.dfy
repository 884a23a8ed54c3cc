/** Failure-carrying wrappers shared by the whole model. */
module Wrappers {

  /** Python's `None` or a present value. */
  datatype Option<+T> = None | Some(value: T)

  /** The outcome of a step that may raise: a value, or the exception that escaped. */
  datatype Result<+R, +E> = Success(value: R) | Failure(error: E)
}
