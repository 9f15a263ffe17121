/** Python's `None` as an explicit absent-value marker. */
module Wrappers {

  datatype Option<+T> = None | Some(value: T)
  {
    function GetOr(default: T): T
    {
      match this
      case Some(v) => v
      case None => default
    }
  }

  /** Flattens a key that may be missing (outer None) or hold null (inner None):
      `d.get(key)` gives None in both cases. */
  function Flatten<T>(o: Option<Option<T>>): (r: Option<T>)
    ensures r.Some? <==> o.Some? && o.value.Some?
  {
    match o
    case Some(inner) => inner
    case None => None
  }
}
