/** Kotlin's nullable values, as an explicit datatype. */
module Wrappers {

  /** `null` is `None`; a present value `v` is `Some(v)`. */
  datatype Option<+T> = None | Some(value: T) {

    /** The value, or `default` when absent (Kotlin's `?:`). */
    function GetOr(default: T): (r: T)
      ensures Some? ==> r == value
      ensures None? ==> r == default
    {
      match this
      case Some(v) => v
      case None => default
    }
  }
}
