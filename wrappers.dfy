/** Failure-carrying result types shared by the model: Python's `None`,
    raised exceptions and "raises or returns nothing" become values. */
module Wrappers {

  datatype Option<+T> = None | Some(value: T)

  datatype Result<+T, +E> = Success(value: T) | Failure(error: E)

  /** An operation that returns nothing on success, or the error it raised. */
  datatype Outcome<+E> = Pass | Fail(error: E)

  /** The outcome of running a parser over a file: the value it read, or the
      exception it raised. */
  datatype Parsed<+T> = ParseOk(value: T) | ParseErr
}
