/** Optional values: a JavaScript property that may be `undefined`/`null`, or a
    Python dictionary entry that may be missing. */
module Wrappers {

  datatype Option<+T> = None | Some(value: T) {

    /** The value, or `default` when absent (JavaScript's `x || default` on a
        property that is either missing or present). */
    function GetOr(default: T): T {
      match this
      case Some(v) => v
      case None => default
    }
  }
}
