/** Optional values: JavaScript's `null` target, Python's `None` cell, and the
    "raised an exception" outcome of a computation. */
module Wrappers {

  datatype Option<+T> = None | Some(value: T) {

    /** The value, or `default` when there is none. */
    function GetOr(default: T): T {
      match this
      case Some(v) => v
      case None => default
    }
  }
}
