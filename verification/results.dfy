/** Failure-carrying wrappers shared by the workflow modules. */
module Results {

  /** A value that may be missing. */
  datatype Option<T> = None | Some(value: T)

  /** The outcome of an operation that can be refused with an error `E`. */
  datatype Result<T, E> = Ok(value: T) | Err(error: E)
}
