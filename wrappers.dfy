/** Option and Result values, used where the Go code returns a value together with a
    found flag or an error. */
module Wrappers {

  datatype Option<+T> = None | Some(value: T)

  /** A Go `(value, error)` pair: `Err` carries the error text. */
  datatype Result<+T> = Ok(value: T) | Err(message: string)
}
