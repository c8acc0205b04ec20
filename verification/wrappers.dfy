/**
  The failure-carrying values the model uses in place of Java's null
  results and exceptions.
*/
module Wrappers {

  /** A value that may be absent: `None` stands for Java's `null` result. */
  datatype Option<+T> = None | Some(value: T) {
    function GetOr(default: T): T {
      match this
      case Some(v) => v
      case None => default
    }
  }

  /** A value or the exception that was thrown instead of returning it. */
  datatype Result<+R, +E> = Success(value: R) | Failure(error: E)
}
