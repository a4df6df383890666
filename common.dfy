/** Shared result types and the JavaScript truthiness test used by the handlers. */
module Common {

  datatype Option<+T> = None | Some(value: T)

  datatype Result<+T, +E> = Ok(value: T) | Err(error: E)

  /** A numeric request field after JavaScript coercion: `None` is a missing,
      null or NaN value. It is truthy when present and different from zero,
      which is what `!field` tests in the handlers. */
  predicate Truthy(x: Option<real>)
  {
    x.Some? && x.value != 0.0
  }

  /** `parseInt(q) || fallback`: a missing, NaN or zero query value falls back. */
  function IntOr(q: Option<int>, fallback: int): (r: int)
    ensures q.Some? && q.value != 0 ==> r == q.value
    ensures q.None? || q.value == 0 ==> r == fallback
  {
    if q.Some? && q.value != 0 then q.value else fallback
  }

  function Min(a: int, b: int): int
  {
    if a <= b then a else b
  }
}
