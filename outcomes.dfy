/** Failure-carrying values used in place of Python's None returns and raised exceptions. */
module Outcomes {

  /** A value that may be absent: Python's `None` or an object. */
  datatype Option<+T> = None | Some(value: T)

  /** A computed value, or the error a Python call would have raised instead. */
  datatype Result<+T, +E> = Ok(value: T) | Err(error: E)

  /** A call that returns nothing useful, or the error it raised. */
  datatype Outcome<+E> = Pass | Fail(error: E)
}
