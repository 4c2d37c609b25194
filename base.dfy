/** Optional values and results with an error, shared by the modules of the model. */
module Base {

  /** A value that may be absent: SQL NULL, a JavaScript `null` or `undefined`. */
  datatype Option<T> = None | Some(value: T)

  /** The outcome of an operation that can fail with an error of type E. */
  datatype Result<T, E> = Success(value: T) | Failure(error: E)
}
