/** Failure-compatible result types shared by every module of the model. */
module Wrappers {

  /** A value that may be absent: an absent object key, or an SQL NULL. */
  datatype Option<+T> = None | Some(value: T)

  /** The outcome of an operation that either returns a value or throws an error. */
  datatype Result<+T, +E> = Success(value: T) | Failure(error: E)

  /** The outcome of a check that returns nothing or throws an error. */
  datatype Outcome<+E> = Pass | Fail(error: E)
}
