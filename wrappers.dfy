/** Optional values: the model's stand-in for JavaScript's `null`/`undefined`
    and Python's `None` where the source uses them as "no value". */
module Wrappers {

  datatype Option<+T> = None | Some(value: T) {

    /** The value held, or `default` when there is none. */
    function GetOr(default: T): T {
      match this
      case Some(v) => v
      case None => default
    }
  }
}
