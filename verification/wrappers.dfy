/** Failure-carrying wrappers shared by every module of the model. */
module Wrappers {

  /** A value that may be absent (Python's `X | None`). */
  datatype Option<+T> = None | Some(value: T)

  /** A value or an error (Python's return-or-raise). */
  datatype Result<+T, +E> = Ok(value: T) | Err(error: E)
}
