/** Failure-carrying values shared by the rest of the model. */
module Results {

  /** A value that may be absent, e.g. the match a pattern did not find. */
  datatype Option<+T> = None | Some(value: T)

  /** The outcome of a step that can raise: a value, or the error that was raised. */
  datatype Result<+T, +E> = Ok(value: T) | Err(error: E)
}
