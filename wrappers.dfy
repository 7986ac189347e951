/** Option type used for "a file that may be absent" and "a value that may be missing". */
module Wrappers {

  datatype Option<+T> = None | Some(value: T) {

    /** The value held, or `default` if there is none (JavaScript's `x || default`). */
    function GetOr(default: T): T {
      match this
      case Some(v) => v
      case None => default
    }
  }
}
