/** Failure-compatible values: null references and thrown exceptions become data. */
module Wrappers {

  /** A reference that may be null: None stands for null. */
  datatype Option<+T> = None | Some(value: T)

  /** A call that returns a value or throws. */
  datatype Result<+T, +E> = Success(value: T) | Failure(error: E)

  /** A void call that returns normally or throws. */
  datatype Outcome<+E> = Pass | Fail(error: E)
}
