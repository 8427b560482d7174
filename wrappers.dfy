/** Option and Result values shared by every module of the model. */
module Wrappers {

  /** A value that may be missing: JavaScript's `null`/`undefined` on the one hand, a present value on the other. */
  datatype Option<T> = None | Some(value: T) {
    function GetOr(default: T): T {
      match this
      case Some(v) => v
      case None => default
    }
  }

  /** The outcome of an operation that can throw: `Err` carries the message of the thrown `Error`. */
  datatype Result<T> = Ok(value: T) | Err(message: string)
}
