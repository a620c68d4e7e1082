/** The optional-value datatype shared by the modules of this model. */
module Wrappers {

  /** A value that may be absent: `undefined`/`null` results of the server. */
  datatype Option<+T> = None | Some(value: T) {

    /** The value, or `default` when absent (`x || default` in the server). */
    function GetOr(default: T): T {
      match this
      case Some(v) => v
      case None => default
    }
  }
}
