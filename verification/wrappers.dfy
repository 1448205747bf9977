/** Failure-carrying result types shared by the whole model. */
module Wrappers {

  /** A value that may be absent: Python's `X | None`. */
  datatype Option<+T> = None | Some(value: T)

  /** Either a normal return value or an exception that escapes the callee. */
  datatype Result<+T, +E> = Success(value: T) | Failure(error: E)
}
