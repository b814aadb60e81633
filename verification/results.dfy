/** Failure-carrying values used in place of the C++ exceptions and error returns. */
module Results {

  /** A value that may be absent. */
  datatype Option<+T> = None | Some(value: T)

  /** Either a computed value or the reason why it could not be computed. */
  datatype Result<+T, +E> = Success(value: T) | Failure(error: E)
}
