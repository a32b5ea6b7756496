/** Option and Result, the shapes the model uses for `null` and for thrown errors. */
module Wrappers {

  datatype Option<+T> = None | Some(value: T)
  {
    /** `a ?? b` / `a || b` on an optional value. */
    function OrElse(other: Option<T>): Option<T>
    {
      if Some? then this else other
    }
  }

  datatype Result<+T, +E> = Success(value: T) | Failure(error: E)

  function Max(a: int, b: int): int { if a >= b then a else b }

  function Min(a: int, b: int): int { if a <= b then a else b }
}
