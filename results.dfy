/** Option and Result: the two ways an operation of the model reports absence or failure. */
module Results {

  /** A value that may be missing; Go's nil error reads as None. */
  datatype Option<+T> = None | Some(value: T)

  /** Either a value or an error, in place of Go's (value, error) pair. */
  datatype Result<+T, +E> = Success(value: T) | Failure(error: E)
}
