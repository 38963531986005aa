/** The optional value used throughout the model for JavaScript's `undefined`,
    for a property that may be absent, and for NaN where a number is expected. */
module Wrappers {

  datatype Option<+T> = None | Some(value: T) {

    /** The value, or `default` when there is none (JavaScript's `o ?? default`
        for a property that is either present or absent). */
    function GetOr(default: T): T
    {
      match this
      case Some(v) => v
      case None => default
    }
  }
}
