/** Failure-compatible wrappers shared by the model: JavaScript `null`/`undefined`
    become `None`, a Python exception becomes a `Failure`. */
module Wrappers {

  datatype Option<+T> = None | Some(value: T) {

    /** The carried value, or `default` when absent. */
    function GetOr(default: T): T {
      match this
      case Some(v) => v
      case None => default
    }
  }

  datatype Result<+R, +E> = Success(value: R) | Failure(error: E)
}
