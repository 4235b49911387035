/** A dictionary key that may be absent, read the way Python's `d.get(key, default)` reads it. */
module Options {

  datatype Option<T> = None | Some(value: T) {

    /** The value when present, otherwise `default`. */
    function GetOr(default: T): T {
      match this
      case Some(v) => v
      case None => default
    }
  }
}
