/** The Option type used for Python values that may be None. */
module Wrappers {

  /** `None` stands for an absent value (Python's None, or a missing key), `Some(v)` for a present one. */
  datatype Option<+T> = None | Some(value: T) {

    /** The value, or `default` when absent (`d.get(key, default)` for a key that is missing). */
    function GetOr(default: T): (r: T)
      ensures Some? ==> r == value
      ensures None? ==> r == default
    {
      match this
      case Some(v) => v
      case None => default
    }
  }
}
