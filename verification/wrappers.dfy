/** Optional values: the model's stand-in for Python's `None` and for a
    dictionary key that may be absent (read with `dict.get(key, default)`). */
module Wrappers {

  datatype Option<+T> = None | Some(value: T) {

    /** The wrapped value, or `default` when there is none. */
    function GetOr(default: T): T {
      match this
      case Some(v) => v
      case None => default
    }
  }
}
