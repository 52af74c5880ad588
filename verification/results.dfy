/** Failure-carrying values shared by the other modules. */
module Results {

  /** A value that may be absent, such as the result of a search that found nothing. */
  datatype Option<+T> = None | Some(value: T)

  /** The outcome of a step that either produces a value or stops with an error. */
  datatype Result<+T, +E> = Ok(value: T) | Err(error: E)
}
