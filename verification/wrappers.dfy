/** Failure-compatible wrappers shared by the runner modules. */
module Wrappers {

  /** A value that may be missing: a JavaScript `undefined`, or a lookup that found nothing. */
  datatype Option<+T> = None | Some(value: T) {

    /** The wrapped value, or `default` when there is none. */
    function GetOr(default: T): T {
      match this
      case Some(v) => v
      case None => default
    }
  }
}
