/** Optional values. A JavaScript property that may be `undefined` is an
    `Option`: `None` is the absent value, `Some(v)` a supplied one. */
module Optional {

  datatype Option<+T> = None | Some(value: T) {

    /** The supplied value, or `default` when absent: the meaning of a
        JavaScript default parameter such as `x = initial`. */
    function GetOr(default: T): T {
      match this
      case Some(v) => v
      case None => default
    }
  }
}
