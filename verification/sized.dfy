/** Shape tags attached to vectors and matrices (src/Sized.ts). The source
    merges a `shape` property into the wrapped object; here the wrapped value
    and its tag are kept side by side. */
module Sized {

  /** A value carrying a one-dimensional shape `[Length]`; the field `shape`
      is that tuple's only entry, `shape[0]` in the source. */
  datatype Sized1<A> = Sized1(shape: int, data: A)

  /** A value carrying a two-dimensional shape `[Rows, Cols]`. */
  datatype Sized2<A> = Sized2(shape: (int, int), data: A)

  /** `mkWrap1(length)(a)`: tags `a` with `[length]`. The tag is whatever the
      caller passes; `a` is neither inspected nor changed. */
  function MkWrap1<A>(length: int, a: A): (r: Sized1<A>)
    ensures r.shape == length
    ensures r.data == a
  {
    Sized1(length, a)
  }

  /** `mkWrap2(shape)(a)`: tags `a` with the pair `shape`, again unchecked. */
  function MkWrap2<A>(shape: (int, int), a: A): (r: Sized2<A>)
    ensures r.shape == shape
    ensures r.data == a
  {
    Sized2(shape, a)
  }
}
