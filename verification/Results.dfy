/** Missing values and Python exceptions. */
module Results {

  datatype Option<+T> = None | Some(value: T)

  /** A call that returns, or raises an exception of kind E. */
  datatype Result<+T, +E> = Ok(value: T) | Raised(error: E)
}
