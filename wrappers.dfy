/** Option and Result, the failure-carrying values every other module returns. */
module Wrappers {

  datatype Option<+T> = None | Some(value: T) {
    function GetOr(default: T): T {
      match this
      case Some(v) => v
      case None => default
    }
  }

  /** A computation that either produced a value or raised the error it carries. */
  datatype Result<+R, +E> = Ok(value: R) | Err(error: E)
}
