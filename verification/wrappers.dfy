/** Option and Result, the failure-carrying datatypes the rest of the model returns. */
module Wrappers {

  datatype Option<+T> = None | Some(value: T)

  /** A computation that either produced a value or stopped with an error. */
  datatype Result<+R, +E> = Success(value: R) | Failure(error: E)
}
