/** The optional value used wherever the monitor's source silently falls back
    to a default: `None` marks the fallback, `Some` carries what was found. */
module Wrappers {

  datatype Option<+T> = None | Some(value: T) {

    /** The value in `Some`, or `default` for `None`. */
    function GetOr(default: T): T {
      match this
      case Some(v) => v
      case None => default
    }
  }
}
