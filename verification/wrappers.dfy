/** An optional value and a value-or-error result. */
module Wrappers {

  /** A value that may be absent (the source's `null`, or a failed lookup). */
  datatype Option<+T> = None | Some(value: T) {

    /** The wrapped value, or `default` when absent. */
    function GetOr(default: T): T {
      match this
      case Some(v) => v
      case None => default
    }
  }

  /** The outcome of an operation that can be rejected with an error value. */
  datatype Result<+R, +E> = Success(value: R) | Failure(error: E)
}
