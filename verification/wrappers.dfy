/** The optional-value datatype used wherever the PHP code works with a value
    that may be `null` (a missing request, an unset configuration key, a
    record-driver method that does not exist). */
module Wrappers {

  datatype Option<+T> = None | Some(value: T) {

    /** The wrapped value, or `default` when there is none. */
    function GetOr(default: T): (r: T)
      ensures Some? ==> r == value
      ensures None? ==> r == default
    {
      match this
      case Some(v) => v
      case None => default
    }
  }
}
