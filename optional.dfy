/** Python's `None`-or-value, used for nullable columns and optional arguments. */
module Optional {

  datatype Option<+T> = None | Some(value: T) {

    /** `x if x is not None else default`, Python's `dict.get(key, default)` on a present-or-absent key. */
    function GetOr(default: T): T {
      match this
      case Some(v) => v
      case None => default
    }
  }
}
