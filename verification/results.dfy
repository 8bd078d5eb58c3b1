/** Optional values and success-or-failure results, used in place of Go's nil
    pointers and `(value, error)` return pairs. */
module Results {

  /** A value that may be absent (Go's nil pointer). */
  datatype Option<+T> = None | Some(value: T)

  /** Either a computed value or the error that stopped the computation. */
  datatype Result<+T, +E> = Ok(value: T) | Err(error: E)
}
