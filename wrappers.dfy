/** Optional values: an argument the caller omitted, or one that is not of the expected kind. */
module Wrappers {

  datatype Option<+T> = None | Some(value: T) {

    /** The value if there is one, the given default otherwise. */
    function GetOr(default: T): T {
      match this
      case Some(v) => v
      case None => default
    }
  }
}
