/** Option and Result: Java's Optional and the exceptions the service throws. */
module Wrappers {

  /** An optional value: Java's `Optional`, or a field that may be null. */
  datatype Option<+T> = None | Some(value: T) {

    /** The contained value, or `default` when there is none. */
    function GetOr(default: T): T {
      match this
      case Some(v) => v
      case None => default
    }
  }

  /** The outcome of an operation that either succeeds or throws. */
  datatype Result<+R, +E> = Success(value: R) | Failure(error: E)
}
