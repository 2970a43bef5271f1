/** Failure-carrying datatypes shared by the other modules. */
module Wrappers {

  /** A value that may be absent (Python's None). */
  datatype Option<+T> = None | Some(value: T)

  /** A computation that either produced a value or raised an error. */
  datatype Result<+T, +E> = Ok(value: T) | Err(error: E)

  /** A computation with no value that either completed or raised an error. */
  datatype Outcome<+E> = Pass | Fail(error: E)
}
