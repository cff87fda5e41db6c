/** Failure-compatible wrappers shared by the stereo modules. */
module Results {

  /** The outcome of an operation that can fail with an error of type E. */
  datatype Result<+T, +E> = Success(value: T) | Failure(error: E)

  /** A value that may be absent (Python's `None`). */
  datatype Option<+T> = None | Some(value: T)
}
