/** Option and Result: the null / exception paths of the modelled code. */
module Wrappers {

  /** A value that may be absent: Python's None, a pandas NaN, a missing key. */
  datatype Option<+T> = None | Some(value: T) {

    /** The value, or `default` when absent (Python's `d.get(k, default)`). */
    function GetOr(default: T): T
    {
      match this
      case Some(v) => v
      case None => default
    }
  }

  /** The outcome of an operation that may raise. */
  datatype Result<+R, +E> = Success(value: R) | Failure(error: E)
}
