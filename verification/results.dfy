/** Optional values and results of operations that can fail, standing in for
    Java's null returns and thrown exceptions. */
module Results {

  /** A value that may be absent, as a Java reference that may be null. */
  datatype Option<+T> = None | Some(value: T)

  /** Either a value or the error an operation raised instead. */
  datatype Result<+T, +E> = Ok(value: T) | Err(error: E)
}
