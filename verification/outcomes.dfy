/** Option and Result, the two failure-carrying wrappers the model uses. */
module Outcomes {

  /** A lookup that may find nothing (Python's `None`). */
  datatype Option<+T> = None | Some(value: T)

  /** A computation that either returns a value or raises an error. */
  datatype Result<+T, +E> = Ok(value: T) | Err(error: E)
}
