/** Wrappers shared by the version and views models: `Option` stands in for
    Java's nullable references, `Result` for a call that either returns a
    value or raises. */
module Wrappers {

  /** A value that may be absent (a Java `null`). */
  datatype Option<+T> = None | Some(value: T) {

    /** The wrapped value, or `default` when absent. */
    function GetOr(default: T): T {
      match this
      case Some(v) => v
      case None => default
    }
  }

  /** Either a returned value or a raised error. */
  datatype Result<+R, +E> = Success(value: R) | Failure(error: E)
}
