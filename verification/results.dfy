/** Option and Result datatypes for absent values and for operations that
    throw in the source. */
module Results {

  /** A value that may be absent (a missing JSON field, no stored record). */
  datatype Option<+T> = None | Some(value: T)

  /** The outcome of an operation that either returns a value or throws. */
  datatype Result<+T, +E> = Success(value: T) | Failure(error: E)
}
