/** An optional value, for absent request parameters and failed parses. */
module Wrappers {

  datatype Option<T> = None | Some(value: T) {

    /** The value if present, otherwise `default` (Python's `dict.get(key, default)`). */
    function GetOr(default: T): T {
      match this
      case Some(v) => v
      case None => default
    }
  }
}
