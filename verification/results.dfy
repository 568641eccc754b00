/** Failure-carrying wrappers shared by the whole model. */
module Results {

  /** A value that may be absent. */
  datatype Option<+T> = None | Some(value: T)

  /** A success value or an error value; stands for a Python return-or-raise. */
  datatype Result<+T, +E> = Ok(value: T) | Err(error: E)
}
