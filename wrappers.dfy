/** The optional value used for the screen's nullable state (`number | null`,
    `string | null`, a movie that has not loaded yet) and for a lookup that
    may find nothing. */
module Wrappers {

  datatype Option<+T> = None | Some(value: T) {

    /** The value, or `default` when there is none (JavaScript's `x || d`
        for a value whose only falsy case is the missing one). */
    function GetOr(default: T): T
    {
      match this
      case Some(v) => v
      case None => default
    }
  }
}
