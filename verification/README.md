# geo-comb numeric core, modelled in Dafny

This project models the small generic numeric library of geo-comb:

- fixed-length vectors, and the vector space `getVectorField` derives from any field (`src/Vector.ts`);
- the shape tags vectors and matrices carry (`src/Sized.ts`);
- fixed-shape matrices built from a two-dimensional array (`src/Matrix.ts`);
- the complex numbers and their field record (`src/Complex.ts`);
- the measure monad, a continuation-style expectation functional (`src/Measure.ts`).

Each source file is one Dafny module (`sized.dfy`, `vector.dfy`, `matrix.dfy`, `complex.dfy`, `measure.dfy`).
Three small support modules model library pieces the sources rely on:

- `Wrappers`: fp-ts `Option`, with `fromPredicate`, `filter` and `map`;
- `Seqs`: `ReadonlyArray.map` and `every`;
- `Algebra`: the fp-ts `Field` record and the laws a field obeys (a commutative ring with identity in which non-zero elements can be divided by).

All numbers are exact reals or unbounded integers.

The source is pure apart from one imperative function.
`zipWith` runs a nested `for` loop and pushes into an array.
Its model is the method `Vector.ZipWith`, with loop invariants.
It is proved equal to the pure function `Vector.CrossWith`.
The vector space uses `CrossWith`, because Dafny functions cannot call methods.

In two places the code does not do what its types and design promise (see "## Findings"):

- `zipWith` pairs every element of one vector with every element of the other.
- As a result, the derived vector addition does not keep the length, does not have `zero(n)` as an identity, and does not commute.

The corrected, positional versions are modelled beside the as-written ones, and their laws are proved.

Where the code and its type signatures suggest different things, the model follows the code:

- `fromArray` does not trust a caller-declared length. Its `wrap` measures the array it is given (src/Vector.ts:17-20). So every vector built by the library is well-shaped (`Vector.WellShaped`).
- `zipWith` is meant to combine vectors position by position. The code builds the cross product (src/Vector.ts:41-49).

Measures are functions `(A -> real) -> real`.
Dafny cannot prove two functions equal just because they agree at every argument.
So a law that compares two measurements of one measure takes `Measure.Congruent` as a precondition: the measure gives equal values to measurements that agree everywhere.
This precondition is proved for every measure `of` and `fromMassFunction` build:

- `Measure.OfIntegrates` and `Measure.FromMassFunctionCongruent` prove it for the basic measures;
- `Measure.MapCongruent`, `Measure.ApCongruent` and `Measure.ChainCongruent` prove that `map`, `ap` and `chain` keep it.

## Model

| member | source | states |
|---|---|---|
| Sized.MkWrap1 | src/Sized.ts:7-10 | the result carries the given length as its shape and the wrapped value unchanged |
| Sized.MkWrap2 | src/Sized.ts:16-19 | the result carries the given `[rows, cols]` shape and the wrapped value unchanged |
| Vector.FromArray | src/Vector.ts:17-26 | the vector holds exactly the given data, and its shape is the data's measured length (well-shaped) |
| Vector.ToArray | src/Vector.ts:22-30 | the data without its tag; for a well-shaped vector, of the tagged length (round trips in `Vector.RoundTrip` and `Vector.WellShapedRoundTrip`) |
| Vector.RoundTrip | src/Vector.ts:24-30 | `toArray(fromArray(d)) == d` for every sequence `d` |
| Vector.WellShapedRoundTrip | src/Vector.ts:17-30 | `fromArray(toArray(v)) == v` for every well-shaped vector `v` |
| Vector.Map | src/Vector.ts:32-35 | `map(f)(v)` keeps the length, holds `f(v[i])` at every index `i` and is well-shaped |
| Vector.ZipWith | src/Vector.ts:37-49 | the nested loops return exactly `fromArray(CrossWith(a, b, f))`: one row of `f(x, y)` per `x` of `a`, each over every `y` of `b` |
| Vector.CrossWith | src/Vector.ts:41-49 | definition of what the nested loops push, used by `getVectorField`'s `add` and `sub` (src/Vector.ts:75-76); characterised by `Vector.CrossWithLength` and `Vector.CrossWithAt`, and computed by `Vector.ZipWith` |
| Vector.CrossWithLength | src/Vector.ts:41-49 | the loops push `\|a\| * \|b\|` results |
| Vector.CrossWithAt | src/Vector.ts:43-47 | result `i * \|b\| + j` is `f(a[i], b[j])`, for every valid `i` and `j` |
| Vector.ZipWithKeepsLengthIff | src/Vector.ts:37-49 | the result has the promised length `\|a\|` if and only if `\|b\| == 1` or `a` is empty |
| Vector.ZipWithSumExample | src/Vector.ts:41-49 | `[1, 2, 3]` zipped with `[10, 20, 30]` under `+` gives the nine pairwise sums, not `[11, 22, 33]` |
| Vector.ZipPositional | src/Vector.ts:37-41 | corrected `zipWith`: length `min(\|a\|, \|b\|)`, element `i` is `f(a[i], b[i])`, well-shaped |
| Vector.ArrayLength | src/Vector.ts:55 | definition: the number of elements `Array.from({ length })` creates for an integer length, 0 when negative; used by `Vector.FromLength` and `Vector.VectorFieldZero` |
| Vector.FromLength | src/Vector.ts:51-57 | `max(length, 0)` copies of `a`, with a matching shape |
| Vector.MergeLengths | src/Vector.ts:59-66 | `Some` exactly when the two recorded shapes agree, and then the same pair unchanged |
| Vector.MergeLengthsOfArrays | src/Vector.ts:59-66 | on vectors built by `fromArray`, succeeds if and only if the data lengths agree |
| Vector.GetVectorField | src/Vector.ts:68-84 | definition of the derived vector space; its operations are characterised by `Vector.VectorFieldAdd`, `Vector.VectorFieldSub`, `Vector.VectorFieldZero`, `Vector.VectorFieldScalarMul` and `Vector.VectorFieldScalarOne` |
| Vector.VectorFieldZero | src/Vector.ts:82 | `zero(n)` has `max(n, 0)` elements, all the field's zero, and is well-shaped |
| Vector.VectorFieldScalarMul | src/Vector.ts:77-81 | `scalarMul(a, x)` keeps the length and holds `mul(x[i], a)` at every index |
| Vector.ScalarOneIdentity | src/Vector.ts:77-83 | if the field's one is a right identity, `scalarMul(scalarOne(), v) == v` for every well-shaped `v` |
| Vector.VectorFieldAdd | src/Vector.ts:75 | for all `x` and `y`, `add(x, y)` is well-shaped with `\|x\| * \|y\|` elements; for every valid `i` and `j` it holds `add(x[i], y[j])` at `i * \|y\| + j` |
| Vector.VectorFieldSub | src/Vector.ts:76 | for all `x` and `y`, `sub(x, y)` is well-shaped with `\|x\| * \|y\|` elements; for every valid `i` and `j` it holds `sub(x[i], y[j])` at `i * \|y\| + j` |
| Vector.VectorFieldScalarOne | src/Vector.ts:83 | `scalarOne()` is the field's one |
| Vector.AddZeroIdentityIff | src/Vector.ts:75-82 | if the field's zero is a right identity, then for well-shaped `v`, `add(v, zero(\|v\|)) == v` holds if and only if `\|v\| <= 1` |
| Vector.GetVectorFieldPositional | src/Vector.ts:68-84 | definition of the corrected vector space, whose `add` and `sub` pair positions; laws in `Vector.PositionalVectorField`, `Vector.PositionalAddZeroIdentity`, `Vector.PositionalAddCommutative` and `Vector.PositionalSubSelf` |
| Vector.PositionalVectorField | src/Vector.ts:68-84 | with positional `add`/`sub`, vectors of equal length give that length and act index by index; `zero`, `scalarMul` and `scalarOne` are unchanged |
| Vector.PositionalAddZeroIdentity | src/Vector.ts:75-82 | with positional `add`, `add(v, zero(\|v\|)) == v` for every length |
| Vector.PositionalAddCommutative | src/Vector.ts:75 | with positional `add`, vector addition commutes whenever the field's addition does |
| Vector.PositionalSubSelf | src/Vector.ts:76-82 | with positional `sub`, `sub(v, v) == zero(\|v\|)` whenever the field's `x - x` is zero |
| Matrix.Wrap | src/Matrix.ts:16-19 | the matrix carries the given shape and the given rows |
| Matrix.From2dArray | src/Matrix.ts:21-34 | `Some` if and only if there are `rows` rows and every row has `cols` elements; the result then has shape `[rows, cols]` and row `i` is `fromArray(arr[i])` |
| Matrix.From2dArrayValid | src/Matrix.ts:21-34 | every matrix returned has matching shape, row count and row lengths, and row `i` unwraps to `arr[i]` |
| Matrix.From2dArrayExamples | src/Matrix.ts:24-33 | a 2 x 3 table is accepted with its rows intact; a short row or a missing row gives `None` |
| Complex.Eq | src/Complex.ts:19-22 | two complex numbers are `Eq` if and only if they are equal |
| Complex.Zero | src/Complex.ts:38-41 | definition of `MonoidSum.empty`, `(0, 0)`; laws in `Complex.MonoidSumLaws` |
| Complex.One | src/Complex.ts:46-49 | definition of `MonoidProduct.empty`, `(1, 0)`; laws in `Complex.MonoidProductLaws` |
| Complex.Sub | src/Complex.ts:24-26 | definition of `MagmaSub.concat`; laws in `Complex.SumAndDifference` |
| Complex.Add | src/Complex.ts:28-30 | definition of `SemigroupSum.concat`; laws in `Complex.SumAndDifference` and `Complex.MonoidSumLaws` |
| Complex.Mul | src/Complex.ts:32-34 | definition of `SemigroupProduct.concat`; laws in `Complex.MonoidProductLaws` |
| Complex.SumAndDifference | src/Complex.ts:24-30 | sum and difference act componentwise; `x - x` is zero; `(x - y) + y == x` |
| Complex.MonoidSumLaws | src/Complex.ts:28-42 | `(0, 0)` is a two-sided identity of the sum, which is commutative and associative |
| Complex.MonoidProductLaws | src/Complex.ts:32-50 | `(1, 0)` is a two-sided identity of the product, which is commutative and associative |
| Complex.NormSquared | src/Complex.ts:59-60 | definition of the divisor `c ** 2 + d ** 2`; law in `Complex.NormSquaredPositive` |
| Complex.NormSquaredPositive | src/Complex.ts:58-61 | the divisor `c^2 + d^2` is positive for every non-zero divisor `c + di` |
| Complex.Div | src/Complex.ts:58-61 | definition of `div` for a non-zero divisor; `Complex.MulAfterDiv` and `Complex.DivAfterMul` prove it the inverse of `mul` |
| Complex.MulAfterDiv | src/Complex.ts:55-61 | `div(x, y) * y == x` for every non-zero `y` |
| Complex.DivAfterMul | src/Complex.ts:55-61 | `div(x * y, y) == x` for every non-zero `y` |
| Complex.Mod | src/Complex.ts:62 | `mod` always yields zero |
| Complex.Degree | src/Complex.ts:63 | `degree` always yields 1 |
| Complex.Field | src/Complex.ts:52-64 | definition of the field record from the instances above; its laws in `Complex.FieldIsField` |
| Complex.FieldIsField | src/Complex.ts:52-64 | the field record satisfies every law in `Algebra.IsField`: sum and product commutative, associative and with identities, product distributing over sum, `x - x == 0`, `(x - y) + y == x`, and `div(x, y) * y == x` for non-zero `y` |
| Complex.VectorField | src/Complex.ts:69-70 | definition: `getVectorField` applied to the complex field; laws in the three rows below |
| Complex.VectorFieldAddZero | src/Complex.ts:69-70 | on complex vectors, `add(v, zero(\|v\|)) == v` holds if and only if `\|v\| <= 1` |
| Complex.VectorFieldAddNotCommutative | src/Complex.ts:69-70 | `[0, 1] + [0, 0]` differs from `[0, 0] + [0, 1]` |
| Complex.VectorFieldScalarOne | src/Complex.ts:69-70 | scaling a complex vector by `scalarOne()` leaves it unchanged |
| Measure.Integrate | src/Measure.ts:28-30 | definition: evaluates the measure at the measurement; used by every law below |
| Measure.Map | src/Measure.ts:32-34 | definition; laws in `Measure.MapIntegrates`, `Measure.MapIdentity`, `Measure.MapComposition`, `Measure.MapIsChainOf` and `Measure.MapCongruent` |
| Measure.Of | src/Measure.ts:36 | definition; laws in `Measure.OfIntegrates`, `Measure.LeftIdentity` and `Measure.RightIdentity` |
| Measure.Ap | src/Measure.ts:38-41 | definition; laws in `Measure.ApOfIntegrates`, `Measure.ApHomomorphism`, `Measure.ApIsChainMap` and `Measure.ApCongruent` |
| Measure.Chain | src/Measure.ts:43-49 | definition; laws in `Measure.ChainIntegrates`, `Measure.LeftIdentity`, `Measure.RightIdentity`, `Measure.ChainAssociative` and `Measure.ChainCongruent` |
| Measure.FoldLeftSum | src/Measure.ts:56 | definition of the left fold of `RA.foldMap(N.MonoidSum)`; proved equal to the reference sum by `Measure.FoldLeftSumIsSum` |
| Measure.FoldMapSum | src/Measure.ts:56 | definition: the fold from the sum monoid's empty value 0 |
| Measure.FromMassFunction | src/Measure.ts:51-57 | definition; laws in the `Measure.FromMassFunction...` rows below |
| Measure.FoldLeftSumIsSum | src/Measure.ts:51-57 | the left fold of `p(x) * g(x)` from `acc` equals `acc` plus the reference sum |
| Measure.WeightedSumAppend | src/Measure.ts:51-57 | the weighted sum over `s + t` is the sum over `s` plus the sum over `t` |
| Measure.WeightedSumCongruent | src/Measure.ts:51-57 | the weighted sum gives equal values to measurements that agree everywhere |
| Measure.FromMassFunctionIntegrates | src/Measure.ts:51-57 | integrating `g` against `fromMassFunction(p)(s)` gives the sum over `s` of `p(x) * g(x)` |
| Measure.FromMassFunctionEmpty | src/Measure.ts:51-57 | with an empty support, everything integrates to 0 |
| Measure.FromMassFunctionAppend | src/Measure.ts:51-57 | the integral over support `s + t` is the sum of the integrals over `s` and over `t` |
| Measure.FromMassFunctionMean | src/Measure.ts:51-57 | support `[0, 1]` with mass 0.3 at 1 integrates `x => x` to 0.3 |
| Measure.FromMassFunctionCongruent | src/Measure.ts:51-57 | discrete measures give equal values to measurements that agree everywhere |
| Measure.OfIntegrates | src/Measure.ts:36 | `of(a)` integrates `g` to `g(a)`, and gives equal values to measurements that agree everywhere |
| Measure.MapIntegrates | src/Measure.ts:28-34 | `map(f)(m)` integrates `g` as `m` integrates `flow(f, g)` |
| Measure.ApOfIntegrates | src/Measure.ts:36-41 | `ap(h)(of(k))` integrates `g` as `h` integrates `flow(k, g)` |
| Measure.ApHomomorphism | src/Measure.ts:36-41 | `ap(of(a))(of(k))` integrates like `of(k(a))` |
| Measure.ChainIntegrates | src/Measure.ts:43-49 | `chain(f)(rho)` integrates `g` as `rho` integrates `m => integrate(g)(f(m))` |
| Measure.LeftIdentity | src/Measure.ts:36-49 | `chain(f)(of(a))` integrates every `g` like `f(a)` |
| Measure.RightIdentity | src/Measure.ts:36-49 | for a congruent `m`, `chain(of)(m)` integrates every `g` like `m` |
| Measure.ChainAssociative | src/Measure.ts:43-49 | for a congruent `m`, chaining `f` then `k` integrates like chaining their Kleisli composition |
| Measure.MapIsChainOf | src/Measure.ts:32-49 | for a congruent `m`, `map(f)(m)` integrates like `chain(flow(f, of))(m)` |
| Measure.ApIsChainMap | src/Measure.ts:32-49 | for a congruent `mf`, `ap(h)(mf)` integrates like `chain(k => map(k)(h))(mf)` |
| Measure.MapIdentity | src/Measure.ts:32-34 | for a congruent `m`, mapping the identity integrates like `m` |
| Measure.MapComposition | src/Measure.ts:32-34 | for a congruent `m`, mapping `flow(f1, f2)` integrates like mapping `f1` and then `f2` |
| Measure.MapCongruent | src/Measure.ts:32-34 | `map` keeps a measure congruent |
| Measure.ChainCongruent | src/Measure.ts:43-49 | `chain(f)` keeps a measure congruent when every `f(x)` is congruent |
| Measure.ApCongruent | src/Measure.ts:38-41 | `ap` of two congruent measures is congruent |

## Left out

- Complex.Div: requires a non-zero divisor. The source divides anyway; for the zero divisor its components are NaN. Division by zero is outside the field's contract.
- Numbers are IEEE-754 doubles in the source and exact reals here. Rounding, NaN and the infinities are not modelled. So the order in which `fromMassFunction` folds its sum does not matter here, though it changes rounding in the source.
- Vector.FromLength: the length is an integer; negative lengths give no elements, as `Array.from` does. A fractional length (truncated by `Array.from`) and the `RangeError` for lengths above 2^32 - 1 are not modelled.
- Run-time representation of the shape tag: `mkWrap1` and `mkWrap2` copy the wrapped array onto a plain object with `Object.assign`. That object does not keep the array's `length` and is not iterable. So, in the running program, `zipWith`'s `for...of` (src/Vector.ts:43-44) throws a TypeError on any vector built by `wrap`, and `map`'s `RA.map` (src/Vector.ts:35) does not reach its elements: `map`, `zipWith`, `add`, `sub` and `scalarMul` fail on vectors the library built. The model treats the wrapped data as the array itself, as the declared types do; all rows under "## Findings" describe the code under this (array, shape) abstraction: the first holds for plain arrays passed in as inputs, and in the running program the second's `add(v, zero(2))` throws at src/Vector.ts:44 instead of returning four elements, and so do the third row's two sums.
- Type-level lengths: the `Length`, `Rows` and `Cols` type parameters, the newtype brands and the `unknown` casts in `mergeLengths` exist only at compile time. The model keeps the run-time `shape` field only.
- The fp-ts instance records of the measure monad (src/Measure.ts:63-94), its `HKT` declaration and the `Eq`, `Magma`, `Semigroup` and `Monoid` records of `src/Complex.ts` are wiring around the functions modelled here. They are not modelled as records.
- The laws that compare two measurements of one measure require `Measure.Congruent`. This is because Dafny functions are not extensional. Congruence is proved for every measure built from `of` and `fromMassFunction` with `map`, `ap` and `chain`.
- The HTTP client, schema validators, report scripts and file output of the repository are not part of this model.

## Findings

| source | as written | input that shows it | evidently intended | confidence | as-written member | corrected member |
|---|---|---|---|---|---|---|
| src/Vector.ts:41-49 | `zipWith` runs a loop over `b` inside a loop over `a`, so it returns all `\|a\| * \|b\|` pairs | `zipWith([1, 2, 3], [10, 20, 30], +)` gives `[11, 21, 31, 12, 22, 32, 13, 23, 33]` | positional pairing, `[11, 22, 33]`, of the length the signature promises | high, not executed | Vector.ZipWithSumExample | Vector.ZipPositional |
| src/Vector.ts:75-82 | vector `add` is that `zipWith`, so `add(v, zero(n))` has `n * n` elements | `v = [1, 2]`: `add(v, zero(2))` has four elements, so it is not `v` | `zero(n)` is an additive identity of every length | high, not executed | Vector.AddZeroIdentityIff | Vector.PositionalAddZeroIdentity |
| src/Vector.ts:75 | vector `add` is that `zipWith`, so `add(v, w)` lists `v[i] + w[j]` in the order of `v`'s elements and `add(w, v)` in the order of `w`'s | complex vectors `[0, 1] + [0, 0]` gives `[0, 0, 1, 1]` while `[0, 0] + [0, 1]` gives `[0, 1, 0, 1]` | `add(v, w) == add(w, v)`, as in any vector space | high, not executed | Complex.VectorFieldAddNotCommutative | Vector.PositionalAddCommutative |
