/** Optional values, standing in for Java references that may be null and
    for operations that signal "nothing left" by throwing or returning null. */
module Wrappers {

  datatype Option<+T> = None | Some(value: T) {

    /** Returns the value in Some, or the default if None. */
    function GetOr(default: T): T {
      match this
      case Some(v) => v
      case None => default
    }
  }
}
