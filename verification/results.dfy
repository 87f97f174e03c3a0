/** Option and Result, the shapes Go's `(T, error)` pairs take in this model. */
module Results {

  /** A value that may be absent: Go's nil pointer or a failed parse. */
  datatype Option<+T> = None | Some(value: T)

  /** Either a value or the error that took its place. */
  datatype Result<+T, +E> = Ok(value: T) | Err(error: E) {
    /** The value, or `default` in place of an error. */
    function GetOr(default: T): T
    {
      if Ok? then value else default
    }
  }

  function Min(a: int, b: int): int { if a <= b then a else b }

  function Max(a: int, b: int): int { if a >= b then a else b }
}
