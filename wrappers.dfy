/** The optional value used wherever the service stores a field that may be absent
    (a Python `None`, or a dictionary key that is not there). */
module Wrappers {

  datatype Option<+T> = None | Some(value: T) {

    /** `d.get(key, default)`: the value if present, else the default. */
    function GetOr(default: T): T
    {
      match this
      case Some(v) => v
      case None => default
    }
  }
}
