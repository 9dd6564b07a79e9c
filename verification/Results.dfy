/** The two failure-carrying shapes every component uses. */
module Results {
  datatype Option<+T> = None | Some(value: T)

  /** A Go `(value, error)` return: exactly one side is meaningful. */
  datatype Result<+T, +E> = Ok(value: T) | Err(error: E)
}
