/** Optional values and results used across the model: JavaScript's `null`/`undefined`
    results become `None`, thrown errors become `Failure`. */
module Wrappers {

  datatype Option<+T> = None | Some(value: T) {
    function GetOr(default: T): T {
      match this
      case Some(v) => v
      case None => default
    }
  }

  datatype Result<+R, +E> = Success(value: R) | Failure(error: E)
}
