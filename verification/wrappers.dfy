/** A lookup result that may be missing. */
module Wrappers {

  datatype Option<+T> = None | Some(value: T) {

    /** The value when present, else `default`. */
    function GetOr(default: T): T {
      match this
      case Some(v) => v
      case None => default
    }
  }
}
