/** Failure-carrying result types shared by the other modules. */
module Wrappers {

  /** A value that may be absent: Python's `None` or a value. */
  datatype Option<+T> = None | Some(value: T)

  /** The value of a computation, or the error it raises. */
  datatype Outcome<+T, +E> = Ok(value: T) | Err(error: E)
}
