/** Option and Result values shared by every module of the catalog model. */
module Common {

  /** A value that may be absent: a missing attribute, a missing file, no match. */
  datatype Option<T> = None | Some(value: T)

  /** The outcome of an operation that can fail with an error of type E. */
  datatype Result<T, E> = Ok(value: T) | Err(error: E)
}
