/** Option and outcome datatypes shared by the modules of this model. */
module Wrappers {

  /** A value that may be absent (Python's `None`). */
  datatype Option<+T> = None | Some(value: T)

  /** The result of an operation that either completes or raises `error`. */
  datatype Outcome<+E> = Pass | Fail(error: E)

  /** A value or the error raised instead of producing it. */
  datatype Result<+T, +E> = Ok(value: T) | Err(error: E)
}
