/** The optional-value type the C++ code uses as std::optional. */
module Wrappers {

  datatype Option<+T> = None | Some(value: T) {

    /** value_or: the held value, or the given default when there is none. */
    function GetOr(default: T): (r: T)
      ensures Some? ==> r == value
      ensures None? ==> r == default
    {
      match this
      case Some(v) => v
      case None => default
    }
  }
}
