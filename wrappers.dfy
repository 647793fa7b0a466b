/** Optional values, standing for Python's `None` and for results that may be absent. */
module Wrappers {

  datatype Option<+T> = None | Some(value: T) {

    /** The wrapped value, or `default` when there is none (Python's `d.get(k, default)`). */
    function GetOr(default: T): T {
      match this
      case Some(v) => v
      case None => default
    }
  }

  /** The one-element sequence of a present value, the empty sequence otherwise. */
  function OptSeq<T>(o: Option<T>): seq<T> {
    if o.Some? then [o.value] else []
  }
}
