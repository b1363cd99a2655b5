/** Optional values: a key missing from an SDK response, an absent command-line
    argument, or a failed call whose result is unavailable. */
module Wrappers {

  datatype Option<+T> = None | Some(value: T) {

    /** The value, or `default` when it is absent: `response.get(key, default)`
        for a key a response may leave out. */
    function GetOr(default: T): (r: T)
      ensures Some? ==> r == value
      ensures None? ==> r == default
    {
      match this
      case Some(v) => v
      case None => default
    }
  }
}
