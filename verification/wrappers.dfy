/** Optional values and success/failure results shared by every module.
    `None` stands for JavaScript's `undefined`/`null` and for a parse that
    yields NaN; `Failure` stands for a thrown error or an error response. */
module Wrappers {

  datatype Option<+T> = None | Some(value: T) {
    /** The value, or `default` when absent (JavaScript's `x ?? default`). */
    function GetOr(default: T): T {
      match this
      case Some(v) => v
      case None => default
    }
  }

  datatype Result<+R, +E> = Success(value: R) | Failure(error: E)
}
