/** Values shared by the avatar helpers: text and values that may be absent. */
module Common {

  /** JavaScript text, one element per Unicode code point. */
  type Text = seq<char>

  /** A value that may be absent (`undefined`, or `null` where the source treats it alike). */
  datatype Option<+T> = None | Some(value: T) {

    /** The value, or `default` when it is absent (a JavaScript default parameter or `toString` coercion). */
    function GetOr(default: T): T {
      match this
      case Some(v) => v
      case None => default
    }
  }
}
