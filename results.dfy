/** Outcome types shared by the loader and the matrix code. */
module Results {

  /** A value that may be absent (Swift's optional). */
  datatype Option<+T> = None | Some(value: T)

  /** A value or the reason it could not be produced. */
  datatype Result<+T, +E> = Ok(value: T) | Err(error: E)
}
