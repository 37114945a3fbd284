/** The optional-value datatype used throughout the model: a JavaScript value
    that may be `null`/`undefined` (a missing map entry, an empty storage slot). */
module Wrappers {

  datatype Option<+T> = None | Some(value: T) {

    /** Returns the value in Some, or `default` for None (JavaScript's `x || default`
        on a value that is either an object or null). */
    function GetOr(default: T): T {
      match this
      case Some(v) => v
      case None => default
    }
  }
}
