/** Optional values and the outcome of an operation that can be rejected. */
module Wrappers {

  /** A value that may be absent: an empty relational link or an unset field. */
  datatype Option<+T> = None | Some(value: T) {

    /** The value, or `default` when absent. */
    function GetOr(default: T): T {
      match this
      case Some(v) => v
      case None => default
    }
  }

  /** The outcome of a write: the new state, or the reason it was rejected. */
  datatype Result<+R, +E> = Success(value: R) | Failure(error: E)
}
