/** Optional values and error returns, standing for Go's nil and (value, error) pairs. */
module Wrappers {

  datatype Option<+T> = None | Some(value: T)

  /** A Go `(value, err)` return: `Err` carries the error, `Ok` the value. */
  datatype Result<+T, +E> = Ok(value: T) | Err(error: E)
}
