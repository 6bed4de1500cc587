/** Failure-carrying datatypes shared by the other modules. */
module Results {

  /** A value that may be absent (a dictionary key that is not there, a
      separator that does not occur). */
  datatype Option<+T> = None | Some(value: T)

  /** The outcome of an operation that can raise: its value, or the error
      that aborted it. */
  datatype Result<+T, +E> = Ok(value: T) | Err(error: E)
}
