/** Failure-carrying return values used where the modelled code raises or answers with an error. */
module Wrappers {

  /** A value that may be absent (a missing dictionary key, a Python `None`). */
  datatype Option<+T> = None | Some(value: T) {

    /** The carried value, or `default` when there is none (Python's `dict.get(k, default)`). */
    function GetOr(default: T): T {
      match this
      case Some(v) => v
      case None => default
    }
  }

  /** A successful value or an error description (an exception the code would raise). */
  datatype Result<+R, +E> = Success(value: R) | Failure(error: E)
}
