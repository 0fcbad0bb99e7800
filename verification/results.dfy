/** Optional values and settled promises, the two shapes the client's code returns. */
module Results {

  /** A JavaScript value that may be `undefined`. */
  datatype Option<+T> = None | Some(value: T)

  /** A settled promise: fulfilled with a value or rejected with a reason. */
  datatype Attempt<+T, +E> = Ok(value: T) | Err(error: E)
}
