/** Small shared vocabulary: an optional value (a JSON field that may be absent)
    and the minimum of two integers (the length that `head(n)` returns). */
module Options {

  datatype Option<+T> = None | Some(value: T) {

    /** The value, or `default` when absent: Python's `dict.get(key, default)`. */
    function GetOr(default: T): T {
      match this
      case Some(v) => v
      case None => default
    }
  }

  function Min(a: int, b: int): int {
    if a <= b then a else b
  }
}
