/** The one failure-compatible wrapper the model needs: JavaScript's `null`
    result of the extractors becomes `None`. */
module Wrappers {

  datatype Option<+T> = None | Some(value: T) {

    /** The present value, or `default` in place of `null`. */
    function GetOr(default: T): T {
      match this
      case Some(v) => v
      case None => default
    }
  }
}
