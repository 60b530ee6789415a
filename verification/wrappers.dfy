/** Stands for Python's `Optional` and nothing more: `None` plays the part of
    Python's `None`, and `GetOr` reads a field with a fallback. */
module Wrappers {

  datatype Option<+T> = None | Some(value: T) {

    /** The wrapped value, or `default` when there is none. */
    function GetOr(default: T): T {
      match this
      case Some(v) => v
      case None => default
    }
  }
}
