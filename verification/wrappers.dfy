/** Optional values: a JavaScript value that may be `null`/`undefined`, or a
    computation that may fail, is modelled as `Option`. */
module Wrappers {

  datatype Option<+T> = None | Some(value: T) {

    /** Returns the value held in Some, or `default` for None (the `x || d` idiom). */
    function GetOr(default: T): T {
      match this
      case Some(v) => v
      case None => default
    }
  }
}
