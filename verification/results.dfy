/** Optional values and success-or-error results, the two shapes the modelled
    code returns instead of raising (Python's `None`, an HTTP 400 error body,
    a browser alert). */
module Results {

  /** A value that may be absent (Python's `None`). */
  datatype Option<+T> = None | Some(value: T)

  /** Either a computed value or the errors that prevented it. */
  datatype Result<+T, +E> = Success(value: T) | Failure(error: E)
}
