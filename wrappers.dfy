/** Option and Result, the two failure-carrying datatypes the model uses. */
module Wrappers {

  /** Python's `None` or a value. */
  datatype Option<+T> = None | Some(value: T)

  /** An operation that either produced a value or was refused for a reason. */
  datatype Result<+R, +E> = Success(value: R) | Failure(error: E)
}
