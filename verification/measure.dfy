/** The measure monad (src/Measure.ts): a measure on `A` is the functional
    that integrates a real-valued measurement of `A` against it, given as
    nothing more than that function. */
module Measure {

  type Measure<!A> = (A -> real) -> real

  /** `integrate(f)(nu)`: evaluates the functional at the measurement `f`. */
  function Integrate<A>(f: A -> real, nu: Measure<A>): (r: real)
  {
    nu(f)
  }

  /** `flow(f, g)`: first `f`, then `g`. */
  function Compose<A, B, C>(f: A -> B, g: B -> C): (r: A -> C)
  {
    (x: A) => g(f(x))
  }

  /** `map(f)(fa)`: integrating `g` against the image is integrating
      `flow(f, g)` against `fa`. */
  function Map<A, B>(f: A -> B, fa: Measure<A>): (r: Measure<B>)
  {
    (g: B -> real) => Integrate(Compose(f, g), fa)
  }

  /** `of(a)`: the point mass at `a`. */
  function Of<A>(a: A): (r: Measure<A>)
  {
    (c: A -> real) => c(a)
  }

  /** The measurement `ap` hands to the measure of functions: a function `k`
      is measured by integrating `flow(k, f)` against `h`. */
  function ApplyTo<A, B>(h: Measure<A>, f: B -> real): (r: (A -> B) -> real)
  {
    (k: A -> B) => h(Compose(k, f))
  }

  /** `ap(h)(g)`: integrates against the measure of functions `g` the value
      each function gives when integrated against the argument measure `h`. */
  function Ap<A, B>(h: Measure<A>, g: Measure<A -> B>): (r: Measure<B>)
  {
    (f: B -> real) => g(ApplyTo(h, f))
  }

  /** The measurement `chain` hands to the outer measure: `m` is measured by
      integrating `g` against `f(m)`. */
  function Bind<A, B>(f: A -> Measure<B>, g: B -> real): (r: A -> real)
  {
    (m: A) => Integrate(g, f(m))
  }

  /** `chain(f)(rho)`: integrates against `rho` the integral of `g` against
      `f(m)` at each `m`. */
  function Chain<A, B>(f: A -> Measure<B>, rho: Measure<A>): (r: Measure<B>)
  {
    (g: B -> real) => Integrate(Bind(f, g), rho)
  }

  /** Kleisli composition: `f`, then `chain(k)` on its result. */
  function Kleisli<A, B, C>(f: A -> Measure<B>, k: B -> Measure<C>): (r: A -> Measure<C>)
  {
    (x: A) => Chain(k, f(x))
  }

  /** The summand `fromMassFunction` folds: mass times measurement. */
  function Weighted<A>(p: A -> real, g: A -> real): (r: A -> real)
  {
    (x: A) => p(x) * g(x)
  }

  /** The left fold behind `RA.foldMap(N.MonoidSum)`: each element's value
      is added to the running total, first element first. */
  function FoldLeftSum<A>(acc: real, s: seq<A>, h: A -> real): (r: real)
    decreases |s|
  {
    if s == [] then acc else FoldLeftSum(acc + h(s[0]), s[1..], h)
  }

  /** `RA.foldMap(N.MonoidSum)(h)(s)`: the fold started from the sum
      monoid's empty value 0. */
  function FoldMapSum<A>(s: seq<A>, h: A -> real): (r: real)
  {
    FoldLeftSum(0.0, s, h)
  }

  /** `fromMassFunction(p)(support)`: the discrete measure that integrates
      `g` as the fold of `p(x) * g(x)` over the support. */
  function FromMassFunction<A>(p: A -> real, support: seq<A>): (r: Measure<A>)
  {
    (g: A -> real) => FoldMapSum(support, Weighted(p, g))
  }

  /** Reference definition of the weighted sum over a support:
      `p(x0) * g(x0) + (p(x1) * g(x1) + ...)`. */
  function WeightedSum<A>(p: A -> real, g: A -> real, s: seq<A>): (r: real)
    decreases |s|
  {
    if s == [] then 0.0 else p(s[0]) * g(s[0]) + WeightedSum(p, g, s[1..])
  }

  /** `m` gives the same value to `f` and `g` when they agree everywhere.
      A measure built from `of` and `fromMassFunction` with `map`, `ap` and
      `chain` does so for every pair; the laws that compare two measurements
      of the same measure hold for such measures. */
  ghost predicate Congruent<A(!new)>(m: Measure<A>, f: A -> real, g: A -> real)
  {
    (forall x :: f(x) == g(x)) ==> m(f) == m(g)
  }

  // ---------------------------------------------------------------------
  // The fold behind fromMassFunction

  /** The left fold from `acc` adds `acc` to the reference sum. */
  lemma {:induction false} FoldLeftSumIsSum<A>(acc: real, s: seq<A>, p: A -> real, g: A -> real)
    ensures FoldLeftSum(acc, s, Weighted(p, g)) == acc + WeightedSum(p, g, s)
    decreases |s|
  {
    if s != [] {
      FoldLeftSumIsSum(acc + Weighted(p, g)(s[0]), s[1..], p, g);
    }
  }

  /** The reference sum over a concatenation is the sum of the two parts. */
  lemma {:induction false} WeightedSumAppend<A>(p: A -> real, g: A -> real, s: seq<A>, t: seq<A>)
    ensures WeightedSum(p, g, s + t) == WeightedSum(p, g, s) + WeightedSum(p, g, t)
    decreases |s|
  {
    if s == [] {
      assert s + t == t;
    } else {
      assert (s + t)[1..] == s[1..] + t;
      WeightedSumAppend(p, g, s[1..], t);
    }
  }

  /** The reference sum depends only on the values of its measurement. */
  lemma {:induction false} WeightedSumCongruent<A>(p: A -> real, f: A -> real, g: A -> real, s: seq<A>)
    requires forall x :: f(x) == g(x)
    ensures WeightedSum(p, f, s) == WeightedSum(p, g, s)
    decreases |s|
  {
    if s != [] {
      WeightedSumCongruent(p, f, g, s[1..]);
    }
  }

  // ---------------------------------------------------------------------
  // fromMassFunction

  /** Integrating `g` against `fromMassFunction(p)(s)` gives the sum over `s`
      of `p(x) * g(x)`. */
  lemma FromMassFunctionIntegrates<A>(p: A -> real, s: seq<A>, g: A -> real)
    ensures Integrate(g, FromMassFunction(p, s)) == WeightedSum(p, g, s)
  {
    FoldLeftSumIsSum(0.0, s, p, g);
  }

  /** The measure of an empty support integrates everything to 0. */
  lemma FromMassFunctionEmpty<A>(p: A -> real, g: A -> real)
    ensures Integrate(g, FromMassFunction(p, [])) == 0.0
  {
  }

  /** Concatenating two supports adds their integrals. */
  lemma FromMassFunctionAppend<A>(p: A -> real, s: seq<A>, t: seq<A>, g: A -> real)
    ensures Integrate(g, FromMassFunction(p, s + t))
            == Integrate(g, FromMassFunction(p, s)) + Integrate(g, FromMassFunction(p, t))
  {
    FromMassFunctionIntegrates(p, s + t, g);
    FromMassFunctionIntegrates(p, s, g);
    FromMassFunctionIntegrates(p, t, g);
    WeightedSumAppend(p, g, s, t);
  }

  /** The two-point distribution on {0, 1} with mass 0.3 at 1 has mean 0.3. */
  lemma FromMassFunctionMean()
    ensures Integrate((x: real) => x, FromMassFunction((x: real) => if x == 1.0 then 0.3 else 0.7, [0.0, 1.0])) == 0.3
  {
    var p := (x: real) => if x == 1.0 then 0.3 else 0.7;
    var g := (x: real) => x;
    FromMassFunctionIntegrates(p, [0.0, 1.0], g);
    assert [0.0, 1.0][1..] == [1.0];
    assert WeightedSum(p, g, [1.0]) == 0.3;
  }

  /** Discrete measures give equal values to pointwise equal measurements. */
  lemma FromMassFunctionCongruent<A(!new)>(p: A -> real, s: seq<A>)
    ensures forall f: A -> real, g: A -> real :: Congruent(FromMassFunction(p, s), f, g)
  {
    forall f: A -> real, g: A -> real | forall x :: f(x) == g(x)
      ensures FromMassFunction(p, s)(f) == FromMassFunction(p, s)(g)
    {
      FromMassFunctionIntegrates(p, s, f);
      FromMassFunctionIntegrates(p, s, g);
      WeightedSumCongruent(p, f, g, s);
    }
  }

  // ---------------------------------------------------------------------
  // of, map, ap, chain, one call at a time

  /** `of(a)` integrates `g` to `g(a)` and gives equal values to pointwise
      equal measurements. */
  lemma OfIntegrates<A(!new)>(a: A, g: A -> real)
    ensures Integrate(g, Of(a)) == g(a)
    ensures forall f: A -> real, h: A -> real :: Congruent(Of(a), f, h)
  {
  }

  /** `map(f)(m)` integrates `g` as `m` integrates `flow(f, g)`. */
  lemma MapIntegrates<A, B>(f: A -> B, m: Measure<A>, g: B -> real)
    ensures Integrate(g, Map(f, m)) == Integrate(Compose(f, g), m)
  {
  }

  /** `ap(h)(of(k))` integrates `g` as `h` integrates `flow(k, g)`. */
  lemma ApOfIntegrates<A, B>(h: Measure<A>, k: A -> B, g: B -> real)
    ensures Integrate(g, Ap(h, Of(k))) == Integrate(Compose(k, g), h)
  {
    assert Ap(h, Of(k))(g) == Of(k)(ApplyTo(h, g)) == ApplyTo(h, g)(k);
  }

  /** Applicative homomorphism: `ap(of(a))(of(k))` is the point mass at `k(a)`. */
  lemma ApHomomorphism<A, B>(a: A, k: A -> B, g: B -> real)
    ensures Integrate(g, Ap(Of(a), Of(k))) == Integrate(g, Of(k(a)))
  {
    assert Ap(Of(a), Of(k))(g) == Of(k)(ApplyTo(Of(a), g)) == ApplyTo(Of(a), g)(k);
    assert ApplyTo(Of(a), g)(k) == Of(a)(Compose(k, g)) == Compose(k, g)(a);
  }

  /** `chain(f)(rho)` integrates `g` as `rho` integrates, at each `m`, the
      integral of `g` against `f(m)`. */
  lemma ChainIntegrates<A, B>(f: A -> Measure<B>, rho: Measure<A>, g: B -> real)
    ensures Integrate(g, Chain(f, rho)) == Integrate(Bind(f, g), rho)
    ensures forall m :: Bind(f, g)(m) == Integrate(g, f(m))
  {
  }

  // ---------------------------------------------------------------------
  // The monad laws, under integration

  /** Left identity: `chain(f)(of(a))` integrates like `f(a)`. */
  lemma LeftIdentity<A, B>(a: A, f: A -> Measure<B>, g: B -> real)
    ensures Integrate(g, Chain(f, Of(a))) == Integrate(g, f(a))
  {
  }

  /** Right identity: `chain(of)(m)` integrates like `m`. */
  lemma RightIdentity<A(!new)>(m: Measure<A>, g: A -> real)
    requires forall f: A -> real, h: A -> real :: Congruent(m, f, h)
    ensures Integrate(g, Chain(Of, m)) == Integrate(g, m)
  {
    forall x ensures Bind(Of, g)(x) == g(x) {
      assert Bind(Of, g)(x) == Integrate(g, Of(x));
    }
    assert Congruent(m, Bind(Of, g), g);
  }

  /** Associativity: chaining `f` and then `k` integrates like chaining their
      Kleisli composition. */
  lemma ChainAssociative<A(!new), B, C>(m: Measure<A>, f: A -> Measure<B>, k: B -> Measure<C>, g: C -> real)
    requires forall f1: A -> real, f2: A -> real :: Congruent(m, f1, f2)
    ensures Integrate(g, Chain(k, Chain(f, m))) == Integrate(g, Chain(Kleisli(f, k), m))
  {
    assert Congruent(m, Bind(f, Bind(k, g)), Bind(Kleisli(f, k), g));
  }

  /** `map(f)(m)` integrates like `chain(flow(f, of))(m)`. */
  lemma MapIsChainOf<A(!new), B>(f: A -> B, m: Measure<A>, g: B -> real)
    requires forall f1: A -> real, f2: A -> real :: Congruent(m, f1, f2)
    ensures Integrate(g, Map(f, m)) == Integrate(g, Chain(Compose(f, Of), m))
  {
    assert Congruent(m, Compose(f, g), Bind(Compose(f, Of), g));
  }

  /** `ap(h)(mf)` integrates like `chain(k => map(k)(h))(mf)`, the
      consistency an applicative owes its monad. */
  lemma ApIsChainMap<A, B>(h: Measure<A>, mf: Measure<A -> B>, g: B -> real)
    requires forall f1: (A -> B) -> real, f2: (A -> B) -> real ::
               (forall k :: f1(k) == f2(k)) ==> mf(f1) == mf(f2)
    ensures Integrate(g, Ap(h, mf)) == Integrate(g, Chain((k: A -> B) => Map(k, h), mf))
  {
    var lhs, rhs := ApplyTo(h, g), Bind((k: A -> B) => Map(k, h), g);
    forall k ensures lhs(k) == rhs(k) {
      var mk := (k: A -> B) => Map(k, h);
      assert rhs(k) == Integrate(g, mk(k));
      assert mk(k) == Map(k, h);
      assert Map(k, h)(g) == Integrate(Compose(k, g), h);
    }
  }

  // ---------------------------------------------------------------------
  // The functor laws, under integration

  /** Mapping the identity integrates like the measure itself. */
  lemma MapIdentity<A(!new)>(m: Measure<A>, g: A -> real)
    requires forall f1: A -> real, f2: A -> real :: Congruent(m, f1, f2)
    ensures Integrate(g, Map((x: A) => x, m)) == Integrate(g, m)
  {
    assert Congruent(m, Compose((x: A) => x, g), g);
  }

  /** Mapping `flow(f1, f2)` integrates like mapping `f1` and then `f2`. */
  lemma MapComposition<A(!new), B, C>(f1: A -> B, f2: B -> C, m: Measure<A>, g: C -> real)
    requires forall h1: A -> real, h2: A -> real :: Congruent(m, h1, h2)
    ensures Integrate(g, Map(Compose(f1, f2), m)) == Integrate(g, Map(f2, Map(f1, m)))
  {
    assert Congruent(m, Compose(Compose(f1, f2), g), Compose(f1, Compose(f2, g)));
  }

  // ---------------------------------------------------------------------
  // Congruence is kept by every combinator

  /** `map` keeps a measure congruent. */
  lemma MapCongruent<A(!new), B(!new)>(f: A -> B, m: Measure<A>)
    requires forall h1: A -> real, h2: A -> real :: Congruent(m, h1, h2)
    ensures forall g1: B -> real, g2: B -> real :: Congruent(Map(f, m), g1, g2)
  {
    forall g1: B -> real, g2: B -> real
      ensures Congruent(Map(f, m), g1, g2)
    {
      assert Congruent(m, Compose(f, g1), Compose(f, g2));
    }
  }

  /** `chain` keeps measures congruent when every `f(x)` is. */
  lemma ChainCongruent<A(!new), B(!new)>(f: A -> Measure<B>, m: Measure<A>)
    requires forall h1: A -> real, h2: A -> real :: Congruent(m, h1, h2)
    requires forall x, h1: B -> real, h2: B -> real :: Congruent(f(x), h1, h2)
    ensures forall g1: B -> real, g2: B -> real :: Congruent(Chain(f, m), g1, g2)
  {
    forall g1: B -> real, g2: B -> real
      ensures Congruent(Chain(f, m), g1, g2)
    {
      forall x ensures (forall y :: g1(y) == g2(y)) ==> Bind(f, g1)(x) == Bind(f, g2)(x) {
        assert Congruent(f(x), g1, g2);
      }
      assert Congruent(m, Bind(f, g1), Bind(f, g2));
    }
  }

  /** `ap` keeps measures congruent. */
  lemma ApCongruent<A(!new), B(!new)>(h: Measure<A>, mf: Measure<A -> B>)
    requires forall h1: A -> real, h2: A -> real :: Congruent(h, h1, h2)
    requires forall k1: (A -> B) -> real, k2: (A -> B) -> real ::
               (forall k :: k1(k) == k2(k)) ==> mf(k1) == mf(k2)
    ensures forall g1: B -> real, g2: B -> real :: Congruent(Ap(h, mf), g1, g2)
  {
    forall g1: B -> real, g2: B -> real
      ensures Congruent(Ap(h, mf), g1, g2)
    {
      forall k: A -> B ensures (forall y :: g1(y) == g2(y)) ==> ApplyTo(h, g1)(k) == ApplyTo(h, g2)(k) {
        assert Congruent(h, Compose(k, g1), Compose(k, g2));
      }
      var a1, a2 := ApplyTo(h, g1), ApplyTo(h, g2);
      assert (forall y :: g1(y) == g2(y)) ==> forall k :: a1(k) == a2(k);
    }
  }
}
