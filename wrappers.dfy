/** Failure-carrying result types used to model the exceptions of the spreadsheet. */
module Wrappers {

  datatype Option<+T> = None | Some(value: T)

  /** What a value-returning operation yields: a value, or the exception it raises. */
  datatype Result<+R, +E> = Success(value: R) | Failure(error: E)

  /** What a `void` operation yields: normal completion, or the exception it raises. */
  datatype Outcome<+E> = Pass | Fail(error: E)
}
