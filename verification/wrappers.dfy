/** Option and Result carriers shared by every module of the model. */
module Wrappers {

  /** An optional value: JavaScript's `undefined`/`null` versus a present value. */
  datatype Option<+T> = None | Some(value: T) {
    function GetOr(default: T): T {
      match this
      case Some(v) => v
      case None => default
    }
  }

  /** The outcome of an operation that can throw: a value or the thrown error. */
  datatype Result<+R, +E> = Ok(value: R) | Err(error: E)
}
