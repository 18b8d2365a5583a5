/** The optional-value datatype the model uses for JavaScript's
    `undefined`/`null` results (lookups that may fail, optional handles). */
module Wrappers {

  datatype Option<+T> = None | Some(value: T) {

    /** The encapsulated value, or `default` when there is none. */
    function GetOr(default: T): T {
      match this
      case Some(v) => v
      case None => default
    }
  }
}
