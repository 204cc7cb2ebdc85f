/** Optional values: a missing dictionary entry, a pandas NaN cell, a lookup
    that found nothing, a text-generation call that produced no output. */
module Wrappers {

  datatype Option<+T> = None | Some(value: T) {

    /** Returns the value if there is one, otherwise the given default. */
    function GetOr(default: T): T {
      match this
      case Some(v) => v
      case None => default
    }
  }
}
