/** Optional values and error returns, the model's stand-ins for Go's
    nil pointers and `(value, error)` pairs. */
module Wrappers {

  datatype Option<+T> = None | Some(value: T)

  /** A Go `(value, error)` return where exactly one side is meaningful. */
  datatype Result<+T> = Ok(value: T) | Err(msg: string)
}
