/** Option and Result: how the model writes Python's `None` and raised exceptions. */
module Wrappers {

  datatype Option<+T> = None | Some(value: T)

  /** A computation that either yields a value or fails with an error (an exception in the source). */
  datatype Result<+R, +E> = Success(value: R) | Failure(error: E)
}
