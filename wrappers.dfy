/** Option and Result values used by every module of the model in place of Go's
    nil pointers, `(value, ok)` pairs and `(value, error)` returns. */
module Wrappers {

  datatype Option<+T> = None | Some(value: T) {
    function GetOr(default: T): T {
      match this
      case Some(v) => v
      case None => default
    }
  }

  /** A Go `(value, error)` return: `Ok` when the error is nil. */
  datatype Result<+T, +E> = Ok(value: T) | Err(error: E)
}
