/** Optional values and success/failure results shared by the other modules. */
module Wrappers {

  /** Python's `None` or a present value. */
  datatype Option<+T> = None | Some(value: T)

  /** The outcome of a call that may raise: its value, or the exception's message. */
  datatype Result<+T, +E> = Success(value: T) | Failure(error: E)
}
