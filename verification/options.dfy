/** Optional values and the JavaScript truthiness rules the two widgets rely on.
    An absent (undefined) property is `None`. */
module Options {

  datatype Option<+T> = None | Some(value: T) {

    /** The value, or `default` when absent: a JavaScript default parameter. */
    function GetOr(default: T): T {
      match this
      case Some(v) => v
      case None => default
    }
  }

  /** A `string | undefined` property is truthy exactly when it is present and non-empty. */
  predicate Truthy(s: Option<string>) {
    s.Some? && s.value != ""
  }

  /** A `boolean | undefined` property is truthy exactly when it is present and true. */
  predicate Flag(b: Option<bool>) {
    b == Some(true)
  }
}
