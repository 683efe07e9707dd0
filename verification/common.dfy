/** Optional values and the JavaScript truthiness rule for strings that the
    application leans on everywhere (`value || fallback`, `if (value)`). */
module Common {

  datatype Option<+T> = None | Some(value: T) {

    /** Returns the value in Some, or `default` for None (`x ?? default`). */
    function GetOr(default: T): T {
      match this
      case Some(v) => v
      case None => default
    }
  }

  /** An optional string is truthy when it is present and non-empty. */
  predicate Present(s: Option<string>) {
    s.Some? && s.value != ""
  }

  /** `s || fallback` for an optional string. */
  function OrElse(s: Option<string>, fallback: string): string {
    if Present(s) then s.value else fallback
  }
}
