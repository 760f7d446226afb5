/** The `Option` type of fp-ts and the three combinators of it that the
    validating constructors use (`fromPredicate`, `filter`, `map`). */
module Wrappers {

  datatype Option<+T> = None | Some(value: T)

  /** `O.fromPredicate(p)(a)`: `a` itself when it satisfies `p`, otherwise nothing. */
  function FromPredicate<T>(a: T, p: T -> bool): (r: Option<T>)
    ensures r.Some? <==> p(a)
    ensures r.Some? ==> r.value == a
  {
    if p(a) then Some(a) else None
  }

  /** `O.filter(p)(o)`: keeps a present value only when it satisfies `p`. */
  function Filter<T>(o: Option<T>, p: T -> bool): (r: Option<T>)
    ensures r.Some? <==> o.Some? && p(o.value)
    ensures r.Some? ==> r.value == o.value
  {
    match o
    case Some(v) => if p(v) then o else None
    case None => None
  }

  /** `O.map(f)(o)`: applies `f` under `Some`, leaves `None` alone. */
  function Map<T, U>(o: Option<T>, f: T -> U): (r: Option<U>)
    ensures r.Some? <==> o.Some?
    ensures r.Some? ==> r.value == f(o.value)
  {
    match o
    case Some(v) => Some(f(v))
    case None => None
  }
}
