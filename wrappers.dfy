/** Absent values and raised errors, as plain data. */
module Wrappers {

  /** Python's `None` or a value. */
  datatype Option<+T> = None | Some(value: T)

  /** A value returned normally, or an exception raised instead. */
  datatype Result<+T, +E> = Success(value: T) | Failure(error: E)
}
