/** Optional values and error-carrying results, as Go's `(value, error)` pairs. */
module Results {

  datatype Option<+T> = None | Some(value: T)

  /** A Go call that returns a value or an error. */
  datatype Result<+T> = Success(value: T) | Failure(error: string)
}
