/** The optional-value datatype shared by the modules of this model. */
module Wrappers {

  datatype Option<+T> = None | Some(value: T) {

    /** The value if there is one, and `default` otherwise (JavaScript's `x || default`). */
    function GetOr(default: T): T
    {
      match this
      case Some(v) => v
      case None => default
    }
  }
}
