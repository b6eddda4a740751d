/** Failure-carrying wrappers shared by the server model. */
module Results {

  /** A value that may be absent (Python's `None`). */
  datatype Option<+T> = None | Some(value: T)

  /** The outcome of a step that talks over a connection: a value, or the fault that ended it. */
  datatype Result<+T, +E> = Ok(value: T) | Err(error: E)
}
