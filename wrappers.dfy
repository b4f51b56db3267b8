/** Option and Result: Go's `nil` results and `(value, error)` pairs. */
module Wrappers {

  datatype Option<+T> = None | Some(value: T)

  /** A Go `(value, error)` pair: either the value or the error text. */
  datatype Result<+T> = Ok(value: T) | Err(error: string)
}
