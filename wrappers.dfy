/** Failure-compatible wrappers used across the model. */
module Wrappers {

  /** JavaScript's `null`/`undefined` versus a present value. */
  datatype Option<+T> = None | Some(value: T) {
    function GetOr(default: T): T {
      match this
      case Some(v) => v
      case None => default
    }
  }

  /** A value or the error a JavaScript function would have thrown. */
  datatype Result<+R, +E> = Success(value: R) | Failure(error: E)
}
