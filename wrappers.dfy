/** Option, Result and Outcome values for lookups that may find nothing and operations that may fail. */
module Wrappers {

  datatype Option<+T> = None | Some(value: T)

  datatype Result<+R, +E> = Success(value: R) | Failure(error: E)

  /** The result of an operation that returns nothing when it succeeds. */
  datatype Outcome<+E> = Pass | Fail(error: E)
}
