/** Failure-carrying return types used where the source throws or returns null. */
module Results {

  /** A value that may be absent (a failed image decode, a layer that is not drawn). */
  datatype Option<+T> = None | Some(value: T)

  /** The outcome of an operation that either produces a value or fails with an error. */
  datatype Result<+T, +E> = Success(value: T) | Failure(error: E)
}
