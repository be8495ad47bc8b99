/** Option and Result, the two failure-carrying shapes the service uses. */
module Wrappers {

  datatype Option<+T> = None | Some(value: T) {
    function GetOr(default: T): T
    {
      match this
      case Some(v) => v
      case None => default
    }
  }

  /** A value, or the error a Go function returns beside its zero value. */
  datatype Result<+T, +E> = Success(value: T) | Failure(error: E)
}
