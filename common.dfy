/** Failure-compatible wrappers shared by every module of the model. */
module Common {

  /** A value that may be absent (`undefined` in the source). */
  datatype Option<+T> = None | Some(value: T)

  /** The outcome of an operation that can fail (a rejected promise or a thrown value in the source). */
  datatype Result<+T, +E> = Success(value: T) | Failure(error: E)
}
