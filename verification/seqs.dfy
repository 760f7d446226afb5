/** The two `ReadonlyArray` combinators of fp-ts that the vector and matrix
    code relies on. */
module Seqs {

  /** `RA.map(f)(s)`: a new sequence of the same length with `f` applied at every index. */
  function MapSeq<A, B>(s: seq<A>, f: A -> B): (r: seq<B>)
    ensures |r| == |s|
    ensures forall i :: 0 <= i < |s| ==> r[i] == f(s[i])
  {
    seq(|s|, i requires 0 <= i < |s| => f(s[i]))
  }

  /** `RA.every(p)(s)`: every element satisfies `p` (true of the empty sequence). */
  predicate Every<A>(s: seq<A>, p: A -> bool)
  {
    forall i :: 0 <= i < |s| ==> p(s[i])
  }
}
