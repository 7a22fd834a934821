module Options {
  /** A value that may be missing: a null pointer, an index of -1, a scan that fails. */
  datatype Option<+T> = None | Some(value: T) {
    function GetOr(default: T): T {
      match this
      case None => default
      case Some(v) => v
    }
  }
}
