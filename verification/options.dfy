/** The optional and fallible values the model passes around. */
module Options {

  /** A value or nothing: Python's `None` as a return value. */
  datatype Option<T> = None | Some(value: T)

  /** A value or the error the source raises in its place. */
  datatype Result<T, E> = Ok(value: T) | Err(error: E)
}
