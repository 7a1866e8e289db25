/** Result types for the registry's error paths. */
module Wrappers {

  datatype Option<+T> = None | Some(value: T)

  /** A computation that either yields a value or fails with an error. */
  datatype Result<+R, +E> = Success(value: R) | Failure(error: E)

  /** A check that either passes or fails with an error; it carries no value. */
  datatype Outcome<+E> = Pass | Fail(error: E)
}
