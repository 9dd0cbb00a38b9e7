/** Failure-carrying wrappers shared by the whole model: the Python code signals
    absence with `None` and failure with exceptions; both become values here. */
module Results {

  /** A value that may be absent (Python's `None`). */
  datatype Option<+T> = None | Some(value: T)

  /** The outcome of an operation that may raise: a value or the error raised. */
  datatype Result<+T, +E> = Ok(value: T) | Err(error: E)
}
