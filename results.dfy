/** Failure-carrying values shared by the other modules. */
module Results {

  datatype Option<+T> = None | Some(value: T)

  /** The value of a call that either succeeds or returns a Go `error`. */
  datatype Result<+T, +E> = Ok(value: T) | Err(error: E)
}
