module Options {
  /** A value that may be absent: Python's `T | None`. */
  datatype Option<+T> = None | Some(value: T)

  /** A value, or the exception raised instead of it. */
  datatype Result<+T, +E> = Ok(value: T) | Err(error: E)
}
