/** The optional value used wherever the extension reads something that may be
    `undefined` or `null`: a stored setting, a tab field, a parsed hostname. */
module Wrappers {

  datatype Option<+T> = None | Some(value: T) {

    /** The value when present, otherwise `default` (JavaScript's `x ?? default`). */
    function GetOr(default: T): T {
      match this
      case Some(v) => v
      case None => default
    }
  }
}
