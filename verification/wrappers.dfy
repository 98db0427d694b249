/** Small failure-aware wrappers shared by every module of the model. */
module Wrappers {

  /** A Java reference that may be null (or a map entry that may be missing). */
  datatype Option<+T> = None | Some(value: T) {

    /** The value, or `default` when this is None. */
    function GetOr(default: T): T {
      match this
      case Some(v) => v
      case None => default
    }
  }

  /** What a Java call does: return a value, or let an exception propagate to its caller. */
  datatype Reply<+T> = Returned(value: T) | Threw
}
