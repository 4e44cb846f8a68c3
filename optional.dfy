/** A value that may be missing: JavaScript's `null`/`undefined` next to a present value. */
module Optional {
  datatype Option<+T> = None | Some(value: T) {
    /** The value, or `default` when it is missing: JavaScript's `x ?? default`. */
    function GetOr(default: T): T {
      match this
      case Some(v) => v
      case None => default
    }
  }
}
