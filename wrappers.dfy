/** Option, Result and Outcome datatypes shared by the model. */
module Wrappers {

  /** A value that may be missing (Go's nil slice or nil pointer). */
  datatype Option<+T> = None | Some(value: T) {
    /** The value, or `default` when there is none. */
    function GetOr(default: T): T {
      match this
      case Some(v) => v
      case None => default
    }
  }

  /** A computed value or the error that prevented it. */
  datatype Result<+T, +E> = Success(value: T) | Failure(error: E)

  /** A Go `error` return: nil (Pass) or an error value. */
  datatype Outcome<+E> = Pass | Fail(error: E)
}
