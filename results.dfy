/** Option and Result values standing in for Java's null returns and thrown exceptions. */
module Results {

  /** A value that may be absent: Java's `null`. */
  datatype Option<+T> = None | Some(value: T)

  /** Either a normal return or the exception that ends the call. */
  datatype Result<+T, +E> = Ok(value: T) | Err(error: E)
}
