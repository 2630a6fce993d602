/** Option values, standing for Python's None-or-value returns, and results of calls that
    may raise. */
module Wrappers {

  datatype Option<+T> = None | Some(value: T) {

    /** Returns the value held in Some, or the given default for None. */
    function GetOr(default: T): T {
      match this
      case Some(v) => v
      case None => default
    }
  }

  /** A value, or the message of the exception raised instead. */
  datatype Result<+T, +E> = Success(value: T) | Failure(error: E)
}
