/** Failure-carrying values used where the Python code returns None or raises. */
module Wrappers {

  /** A value that may be absent (Python's None). */
  datatype Option<+T> = None | Some(value: T)

  /** Either a computed value or the error the Python code would raise. */
  datatype Result<+T, +E> = Ok(value: T) | Err(error: E)
}
