/** Optional values and fallible results, standing in for Python's `None` and raised exceptions. */
module Wrappers {

  datatype Option<T> = None | Some(value: T) {
    /** `value` when present, otherwise `default` (Python's `d.get(key, default)`). */
    function GetOr(default: T): T {
      match this
      case Some(v) => v
      case None => default
    }
  }

  datatype Result<T, E> = Success(value: T) | Failure(error: E)
}
