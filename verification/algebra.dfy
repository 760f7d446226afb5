/** The `Field<A>` record of fp-ts that `getVectorField` and the complex
    numbers are written against, and the laws a field instance is meant to
    satisfy.  The record is a value: a bundle of operations, nothing more. */
module Algebra {

  /** Division is a partial operation: an instance may refuse some divisors
      (the complex field refuses zero). `degree` returns a natural-number
      measure, as in a Euclidean ring. */
  datatype Field<!A> = Field(
    add: (A, A) -> A,
    zero: A,
    mul: (A, A) -> A,
    one: A,
    sub: (A, A) -> A,
    div: (A, A) --> A,
    mod: (A, A) -> A,
    degree: A -> int)

  ghost predicate AddCommutative<A(!new)>(F: Field<A>)
  {
    forall x, y :: F.add(x, y) == F.add(y, x)
  }

  ghost predicate AddAssociative<A(!new)>(F: Field<A>)
  {
    forall x, y, z :: F.add(F.add(x, y), z) == F.add(x, F.add(y, z))
  }

  /** `zero` is a right identity of `add`; with commutativity it is two-sided. */
  ghost predicate ZeroIsIdentity<A(!new)>(F: Field<A>)
  {
    forall x :: F.add(x, F.zero) == x && F.add(F.zero, x) == x
  }

  ghost predicate MulCommutative<A(!new)>(F: Field<A>)
  {
    forall x, y :: F.mul(x, y) == F.mul(y, x)
  }

  ghost predicate MulAssociative<A(!new)>(F: Field<A>)
  {
    forall x, y, z :: F.mul(F.mul(x, y), z) == F.mul(x, F.mul(y, z))
  }

  ghost predicate OneIsIdentity<A(!new)>(F: Field<A>)
  {
    forall x :: F.mul(x, F.one) == x && F.mul(F.one, x) == x
  }

  ghost predicate SubCancels<A(!new)>(F: Field<A>)
  {
    forall x :: F.sub(x, x) == F.zero
  }

  /** Adding back what was subtracted restores the original: `sub` is
      addition of the additive inverse. */
  ghost predicate AddUndoesSub<A(!new)>(F: Field<A>)
  {
    forall x, y :: F.add(F.sub(x, y), y) == x
  }

  /** `mul` distributes over `add`: the law that ties the two operations
      together in a ring. */
  ghost predicate MulDistributes<A(!new)>(F: Field<A>)
  {
    forall x, y, z :: F.mul(x, F.add(y, z)) == F.add(F.mul(x, y), F.mul(x, z))
  }

  /** Division by any non-zero element is defined, and multiplying back by
      the divisor undoes it. */
  ghost predicate MulUndoesDiv<A(!new)>(F: Field<A>)
  {
    forall x, y :: y != F.zero ==> F.div.requires(x, y) && F.mul(F.div(x, y), y) == x
  }

  /** The laws a `Field<A>` instance is expected to satisfy: a commutative
      ring with identity, whose non-zero elements can be divided by. */
  ghost predicate IsField<A(!new)>(F: Field<A>)
  {
    && AddCommutative(F) && AddAssociative(F) && ZeroIsIdentity(F)
    && MulCommutative(F) && MulAssociative(F) && OneIsIdentity(F)
    && MulDistributes(F) && SubCancels(F) && AddUndoesSub(F) && MulUndoesDiv(F)
  }
}
