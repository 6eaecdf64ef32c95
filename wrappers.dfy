/** The optional values of the source: nullable references and `Nullable<T>` (`int?`, `DateTime?`). */
module Wrappers {

  datatype Option<+T> = None | Some(value: T) {

    /** The value, or `default` when there is none (the source's `x ?? default` and `TryParse ? v : default`). */
    function GetOr(default: T): T {
      match this
      case Some(v) => v
      case None => default
    }
  }
}
