/** Optional values and results shared by the model. */
module Common {

  /** A value that may be absent: JavaScript's `null`/`undefined` become `None`. */
  datatype Option<+T> = None | Some(value: T)

  /** The outcome of an operation that either returns a value or throws an error. */
  datatype Result<+T, +E> = Success(value: T) | Failure(error: E)
}
