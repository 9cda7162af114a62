/** An optional value: either nothing or one value of type `T`. */
module Wrappers {

  /** A value that may be absent: JavaScript's `null` from `getAttribute`,
      `NaN` from `parseInt`, or an element `querySelector` did not find. */
  datatype Option<+T> = None | Some(value: T) {

    /** The value, or `default` for `None`: how `parseInt(…) || 0` replaces
        `NaN` with 0. */
    function GetOr(default: T): (r: T)
      ensures Some? ==> r == value
      ensures None? ==> r == default
    {
      match this
      case Some(v) => v
      case None => default
    }
  }
}
