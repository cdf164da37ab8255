/** The optional value used throughout the model: JavaScript's `undefined`
    (a missing header, an unset environment variable, an absent array slot)
    is `None`. */
module Wrappers {

  datatype Option<+T> = None | Some(value: T) {

    /** The value, or `default` when there is none (JavaScript's `??`). */
    function GetOr(default: T): T {
      match this
      case Some(v) => v
      case None => default
    }
  }
}
