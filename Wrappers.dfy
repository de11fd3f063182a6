/** Optional values and fallible results, used for JavaScript's `undefined`
    and for the error that a component throws. */
module Wrappers {

  /** `None` stands for an omitted (undefined) value. */
  datatype Option<+T> = None | Some(value: T) {

    /** The value, or `default` when it was omitted (JavaScript's `x = default`
        destructuring and `x || default` on an object). */
    function GetOr(default: T): (r: T)
      ensures Some? ==> r == value
      ensures None? ==> r == default
    {
      match this
      case Some(v) => v
      case None => default
    }
  }

  /** The outcome of a computation that may throw instead of returning. */
  datatype Result<+R, +E> = Success(value: R) | Failure(error: E)
}
