/** Fixed-length vectors (src/Vector.ts): a sequence of elements together
    with a recorded shape `[Length]`, and the vector space `getVectorField`
    derives from any field.

    The source's length type parameter has no run-time existence; only the
    recorded `shape` does, and every constructor here measures it from the
    data it wraps. */
module Vector {
  import opened Wrappers
  import opened Seqs
  import opened Algebra
  import opened Sized

  /** A vector is its data tagged with a one-dimensional shape. */
  type Vector<A> = Sized1<seq<A>>

  /** The recorded length agrees with the data. */
  ghost predicate WellShaped<A>(v: Vector<A>)
  {
    v.shape == |v.data|
  }

  // ---------------------------------------------------------------------
  // wrap / unwrap, fromArray / toArray

  /** `fromArray` (the module's `wrap`): tags `data` with the length it
      actually has, whatever length the caller's type claims. */
  function FromArray<A>(data: seq<A>): (v: Vector<A>)
    ensures v.data == data
    ensures v.shape == |data|
    ensures WellShaped(v)
  {
    MkWrap1(|data|, data)
  }

  /** `toArray` (the module's `unwrap`): the data without its tag; for a
      well-shaped vector its length is the tagged length. */
  function ToArray<A>(v: Vector<A>): (r: seq<A>)
    ensures WellShaped(v) ==> |r| == v.shape
  {
    v.data
  }

  /** Wrapping and then unwrapping gives back exactly the sequence wrapped. */
  lemma RoundTrip<A>(data: seq<A>)
    ensures ToArray(FromArray(data)) == data
  {
  }

  /** Conversely, a well-shaped vector is rebuilt exactly from its data. */
  lemma WellShapedRoundTrip<A>(v: Vector<A>)
    requires WellShaped(v)
    ensures FromArray(ToArray(v)) == v
  {
  }

  // ---------------------------------------------------------------------
  // map

  /** `map(f)(v)`: `f` applied at every index; the shape is measured again
      from the new data rather than copied from `v`. */
  function Map<A, B>(f: A -> B, v: Vector<A>): (r: Vector<B>)
    ensures WellShaped(r)
    ensures |r.data| == |v.data|
    ensures forall i :: 0 <= i < |v.data| ==> r.data[i] == f(v.data[i])
  {
    FromArray(MapSeq(v.data, f))
  }

  // ---------------------------------------------------------------------
  // zipWith, as written: every element of `a` paired with every element of `b`

  /** The results `f(x, y)` for one element `x` of the first vector and every
      `y` of the second, in order: one pass of the inner loop. */
  function Row<A, B, C>(x: A, ys: seq<B>, f: (A, B) -> C): (r: seq<C>)
  {
    seq(|ys|, j requires 0 <= j < |ys| => f(x, ys[j]))
  }

  /** What the nested loop of `zipWith` pushes, for the elements of `xs`
      visited so far: one `Row` per element of `xs`, in order. */
  function CrossWith<A, B, C>(xs: seq<A>, ys: seq<B>, f: (A, B) -> C): (r: seq<C>)
  {
    if xs == [] then [] else CrossWith(xs[..|xs| - 1], ys, f) + Row(xs[|xs| - 1], ys, f)
  }

  /** The nested loop pushes `|xs| * |ys|` results. */
  lemma {:induction false} CrossWithLength<A, B, C>(xs: seq<A>, ys: seq<B>, f: (A, B) -> C)
    ensures |CrossWith(xs, ys, f)| == |xs| * |ys|
  {
    if xs != [] {
      CrossWithLength(xs[..|xs| - 1], ys, f);
      assert |CrossWith(xs, ys, f)| == (|xs| - 1) * |ys| + |ys|;
    }
  }

  /** Position `i * m + j` of `k` rows of `m` lies inside the `k * m` results. */
  lemma RowMajorBound(i: int, j: int, k: int, m: int)
    requires 0 <= i < k && 0 <= j < m
    ensures 0 <= i * m + j < k * m
  {
    assert 0 <= i * m by {
      NonNegativeProduct(i, m);
    }
    assert (i + 1) * m <= k * m by {
      NonNegativeProduct(k - i - 1, m);
      assert k * m - (i + 1) * m == (k - i - 1) * m;
    }
  }

  /** The product of two non-negative integers is non-negative. */
  lemma NonNegativeProduct(a: int, b: int)
    requires 0 <= a && 0 <= b
    ensures 0 <= a * b
  {
  }

  /** The result holds `f(xs[i], ys[j])` at position `i * |ys| + j`: the outer
      loop runs over the first vector, the inner loop over the second. */
  lemma {:induction false} CrossWithAt<A, B, C>(xs: seq<A>, ys: seq<B>, f: (A, B) -> C, i: int, j: int)
    requires 0 <= i < |xs| && 0 <= j < |ys|
    ensures |CrossWith(xs, ys, f)| == |xs| * |ys|
    ensures 0 <= i * |ys| + j < |xs| * |ys|
    ensures CrossWith(xs, ys, f)[i * |ys| + j] == f(xs[i], ys[j])
  {
    var n, m := |xs|, |ys|;
    var init := xs[..n - 1];
    CrossWithLength(xs, ys, f);
    CrossWithLength(init, ys, f);
    RowMajorBound(i, j, n, m);
    if i == n - 1 {
      assert i * m + j == |CrossWith(init, ys, f)| + j;
    } else {
      RowMajorBound(i, j, n - 1, m);
      CrossWithAt(init, ys, f, i, j);
      assert init[i] == xs[i];
    }
  }

  /** `zipWith(a, b, f)` as written: a nested loop that pushes `f(x, y)` for
      every `x` of `a` and, inside it, every `y` of `b`, then wraps the result. */
  method ZipWith<A, B, C>(a: Vector<A>, b: Vector<B>, f: (A, B) -> C) returns (r: Vector<C>)
    ensures r == FromArray(CrossWith(a.data, b.data, f))
  {
    var out: seq<C> := [];
    for i := 0 to |a.data|
      invariant out == CrossWith(a.data[..i], b.data, f)
    {
      var x := a.data[i];
      for j := 0 to |b.data|
        invariant out == CrossWith(a.data[..i], b.data, f) + Row(x, b.data[..j], f)
      {
        assert Row(x, b.data[..j + 1], f) == Row(x, b.data[..j], f) + [f(x, b.data[j])];
        out := out + [f(x, b.data[j])];
      }
      assert a.data[..i + 1][..i] == a.data[..i];
      assert b.data[..|b.data|] == b.data;
    }
    assert a.data[..|a.data|] == a.data;
    r := FromArray(out);
  }

  /** The length `zipWith` returns equals that of its first argument exactly
      when the second has one element or the first is empty: for two vectors
      of the same length n >= 2 the promised length n is broken (n * n). */
  lemma ZipWithKeepsLengthIff<A, B, C>(xs: seq<A>, ys: seq<B>, f: (A, B) -> C)
    ensures |CrossWith(xs, ys, f)| == |xs| <==> |ys| == 1 || |xs| == 0
  {
    CrossWithLength(xs, ys, f);
    var n, m := |xs|, |ys|;
    if n != 0 && m == 0 {
      assert n * m == 0;
    } else if n != 0 && m > 1 {
      MulGrows(n, m);
    }
  }

  /** A positive number times a factor of two or more is larger than itself. */
  lemma MulGrows(n: nat, m: nat)
    requires n > 0 && m > 1
    ensures n * m > n
  {
    assert n * m == n * (m - 1) + n;
    assert n * (m - 1) > 0;
  }

  /** The addition of the two length-3 vectors [1, 2, 3] and [10, 20, 30]
      yields nine sums, every pairing, not the three positional ones. */
  lemma ZipWithSumExample()
    ensures CrossWith([1, 2, 3], [10, 20, 30], (x: int, y: int) => x + y)
            == [11, 21, 31, 12, 22, 32, 13, 23, 33]
  {
    var f := (x: int, y: int) => x + y;
    var ys := [10, 20, 30];
    assert [1, 2, 3][..2] == [1, 2];
    assert [1, 2][..1] == [1];
    assert [1][..0] == [];
    assert Row(1, ys, f) == [11, 21, 31];
    assert Row(2, ys, f) == [12, 22, 32];
    assert Row(3, ys, f) == [13, 23, 33];
  }

  // ---------------------------------------------------------------------
  // zipWith, as its signature promises: positional pairing

  /** Corrected `zipWith`: element i of `a` combined with element i of `b`,
      stopping at the shorter one (the behaviour of `ReadonlyArray.zipWith`);
      on two vectors of the same length the result has that length. */
  function ZipPositional<A, B, C>(a: Vector<A>, b: Vector<B>, f: (A, B) -> C): (r: Vector<C>)
    ensures WellShaped(r)
    ensures |r.data| == if |a.data| <= |b.data| then |a.data| else |b.data|
    ensures forall i :: 0 <= i < |r.data| ==> r.data[i] == f(a.data[i], b.data[i])
  {
    var n := if |a.data| <= |b.data| then |a.data| else |b.data|;
    FromArray(seq(n, i requires 0 <= i < n => f(a.data[i], b.data[i])))
  }

  // ---------------------------------------------------------------------
  // fromLength, mergeLengths

  /** The number of elements `Array.from({ length })` creates for an integer
      `length`: negative lengths count as zero. */
  function ArrayLength(length: int): (r: nat)
  {
    if length < 0 then 0 else length
  }

  /** `fromLength(length)(a)`: `a` repeated, tagged with the measured length. */
  function FromLength<A>(length: int, a: A): (v: Vector<A>)
    ensures WellShaped(v)
    ensures |v.data| == ArrayLength(length)
    ensures forall i :: 0 <= i < |v.data| ==> v.data[i] == a
  {
    FromArray(seq(ArrayLength(length), _ => a))
  }

  /** `mergeLengths([v1, v2])`: the same pair, untouched, when the recorded
      lengths agree, and nothing otherwise. */
  function MergeLengths<A, B>(v1: Vector<A>, v2: Vector<B>): (r: Option<(Vector<A>, Vector<B>)>)
    ensures r.Some? <==> v1.shape == v2.shape
    ensures r.Some? ==> r.value == (v1, v2)
  {
    FromPredicate((v1, v2), (p: (Vector<A>, Vector<B>)) => p.0.shape == p.1.shape)
  }

  /** On vectors built by `fromArray`, `mergeLengths` succeeds exactly when
      the data lengths agree. */
  lemma MergeLengthsOfArrays<A, B>(s: seq<A>, t: seq<B>)
    ensures MergeLengths(FromArray(s), FromArray(t)).Some? <==> |s| == |t|
  {
  }

  // ---------------------------------------------------------------------
  // getVectorField

  /** The record declared in src/VectorField.ts. */
  datatype VectorField<!A> = VectorField(
    add: (Vector<A>, Vector<A>) -> Vector<A>,
    zero: int -> Vector<A>,
    scalarMul: (A, Vector<A>) -> Vector<A>,
    scalarOne: () -> A,
    sub: (Vector<A>, Vector<A>) -> Vector<A>)

  /** `getVectorField(F)`: addition and subtraction are `zipWith` with the
      field's `add` and `sub`, `zero(n)` broadcasts the field's zero,
      `scalarMul(a, x)` multiplies every element by `a` on the right and
      `scalarOne` is the field's one. */
  function GetVectorField<A>(F: Field<A>): (r: VectorField<A>)
  {
    VectorField(
      (x: Vector<A>, y: Vector<A>) => FromArray(CrossWith(x.data, y.data, F.add)),
      (n: int) => FromLength(n, F.zero),
      (a: A, x: Vector<A>) => Map(xi => F.mul(xi, a), x),
      () => F.one,
      (x: Vector<A>, y: Vector<A>) => FromArray(CrossWith(x.data, y.data, F.sub)))
  }

  /** `zero(n)` has `max(n, 0)` elements, all the field's zero, and that shape. */
  lemma VectorFieldZero<A>(F: Field<A>, n: int)
    ensures WellShaped(GetVectorField(F).zero(n))
    ensures |GetVectorField(F).zero(n).data| == ArrayLength(n)
    ensures forall i :: 0 <= i < ArrayLength(n) ==> GetVectorField(F).zero(n).data[i] == F.zero
  {
  }

  /** `scalarMul(a, x)` keeps the length and multiplies each element by `a`. */
  lemma VectorFieldScalarMul<A>(F: Field<A>, a: A, x: Vector<A>)
    ensures |GetVectorField(F).scalarMul(a, x).data| == |x.data|
    ensures forall i :: 0 <= i < |x.data| ==> GetVectorField(F).scalarMul(a, x).data[i] == F.mul(x.data[i], a)
  {
  }

  /** Scaling by `scalarOne()` is the identity on well-shaped vectors of every
      length, given that the field's one is a right identity. */
  lemma ScalarOneIdentity<A>(F: Field<A>, v: Vector<A>)
    requires WellShaped(v)
    requires forall x :: F.mul(x, F.one) == x
    ensures GetVectorField(F).scalarMul(GetVectorField(F).scalarOne(), v) == v
  {
    var vf := GetVectorField(F);
    var r := vf.scalarMul(vf.scalarOne(), v);
    assert r.data == v.data;
  }

  /** Vector addition yields `|x| * |y|` elements, not `|x|`; the field's
      `add` of `x[i]` and `y[j]` sits at `i * |y| + j`. */
  lemma VectorFieldAdd<A>(F: Field<A>, x: Vector<A>, y: Vector<A>, i: int, j: int)
    ensures WellShaped(GetVectorField(F).add(x, y))
    ensures |GetVectorField(F).add(x, y).data| == |x.data| * |y.data|
    ensures 0 <= i < |x.data| && 0 <= j < |y.data| ==>
              0 <= i * |y.data| + j < |x.data| * |y.data| &&
              GetVectorField(F).add(x, y).data[i * |y.data| + j] == F.add(x.data[i], y.data[j])
  {
    assert GetVectorField(F).add(x, y).data == CrossWith(x.data, y.data, F.add);
    CrossWithLength(x.data, y.data, F.add);
    if 0 <= i < |x.data| && 0 <= j < |y.data| {
      CrossWithAt(x.data, y.data, F.add, i, j);
    }
  }

  /** Vector subtraction, likewise, yields `|x| * |y|` elements; the field's
      `sub` of `x[i]` and `y[j]` sits at `i * |y| + j`. */
  lemma VectorFieldSub<A>(F: Field<A>, x: Vector<A>, y: Vector<A>, i: int, j: int)
    ensures WellShaped(GetVectorField(F).sub(x, y))
    ensures |GetVectorField(F).sub(x, y).data| == |x.data| * |y.data|
    ensures 0 <= i < |x.data| && 0 <= j < |y.data| ==>
              0 <= i * |y.data| + j < |x.data| * |y.data| &&
              GetVectorField(F).sub(x, y).data[i * |y.data| + j] == F.sub(x.data[i], y.data[j])
  {
    assert GetVectorField(F).sub(x, y).data == CrossWith(x.data, y.data, F.sub);
    CrossWithLength(x.data, y.data, F.sub);
    if 0 <= i < |x.data| && 0 <= j < |y.data| {
      CrossWithAt(x.data, y.data, F.sub, i, j);
    }
  }

  /** `scalarOne()` is the field's one. */
  lemma VectorFieldScalarOne<A>(F: Field<A>)
    ensures GetVectorField(F).scalarOne() == F.one
  {
  }

  /** `add(v, zero(n)) == v`, for a well-shaped `v` of length n, holds exactly
      when n <= 1 (given that the field's zero is a right identity). */
  lemma AddZeroIdentityIff<A>(F: Field<A>, v: Vector<A>)
    requires WellShaped(v)
    requires forall x :: F.add(x, F.zero) == x
    ensures GetVectorField(F).add(v, GetVectorField(F).zero(|v.data|)) == v <==> |v.data| <= 1
  {
    var vf := GetVectorField(F);
    var n := |v.data|;
    var z := vf.zero(n);
    var s := vf.add(v, z);
    ZipWithKeepsLengthIff(v.data, z.data, F.add);
    if n == 1 {
      CrossWithAt(v.data, z.data, F.add, 0, 0);
      assert s.data == v.data;
    } else if n == 0 {
      assert s.data == v.data;
    } else {
      assert |s.data| != n;
    }
  }

  // ---------------------------------------------------------------------
  // The vector space over positional addition and subtraction

  /** `getVectorField` with addition and subtraction built on the positional
      `ZipPositional` instead of the cross-product `zipWith`. */
  function GetVectorFieldPositional<A>(F: Field<A>): (r: VectorField<A>)
  {
    var vf := GetVectorField(F);
    VectorField(
      (x: Vector<A>, y: Vector<A>) => ZipPositional(x, y, F.add),
      vf.zero, vf.scalarMul, vf.scalarOne,
      (x: Vector<A>, y: Vector<A>) => ZipPositional(x, y, F.sub))
  }

  /** Positional addition and subtraction keep the common length and act
      index by index; zero, scaling and the scalar one are those of
      `getVectorField`. */
  lemma PositionalVectorField<A>(F: Field<A>, x: Vector<A>, y: Vector<A>, a: A, n: int)
    requires |x.data| == |y.data|
    ensures WellShaped(GetVectorFieldPositional(F).add(x, y))
    ensures |GetVectorFieldPositional(F).add(x, y).data| == |GetVectorFieldPositional(F).sub(x, y).data| == |x.data|
    ensures forall i :: 0 <= i < |x.data| ==>
              && GetVectorFieldPositional(F).add(x, y).data[i] == F.add(x.data[i], y.data[i])
              && GetVectorFieldPositional(F).sub(x, y).data[i] == F.sub(x.data[i], y.data[i])
    ensures GetVectorFieldPositional(F).zero(n) == GetVectorField(F).zero(n)
    ensures GetVectorFieldPositional(F).scalarMul(a, x) == GetVectorField(F).scalarMul(a, x)
    ensures GetVectorFieldPositional(F).scalarOne() == F.one
  {
  }

  /** With positional addition, `add(v, zero(n)) == v` for every length n. */
  lemma PositionalAddZeroIdentity<A>(F: Field<A>, v: Vector<A>)
    requires WellShaped(v)
    requires forall x :: F.add(x, F.zero) == x
    ensures GetVectorFieldPositional(F).add(v, GetVectorFieldPositional(F).zero(|v.data|)) == v
  {
    var vf := GetVectorFieldPositional(F);
    var s := vf.add(v, vf.zero(|v.data|));
    assert s.data == v.data;
  }

  /** With positional addition, vector addition commutes whenever the
      field's addition does. */
  lemma PositionalAddCommutative<A>(F: Field<A>, v: Vector<A>, w: Vector<A>)
    requires forall x, y :: F.add(x, y) == F.add(y, x)
    ensures GetVectorFieldPositional(F).add(v, w) == GetVectorFieldPositional(F).add(w, v)
  {
    var vf := GetVectorFieldPositional(F);
    assert vf.add(v, w).data == vf.add(w, v).data;
  }

  /** With positional subtraction, `sub(v, v)` is `zero(n)` for every length n. */
  lemma PositionalSubSelf<A>(F: Field<A>, v: Vector<A>)
    requires forall x :: F.sub(x, x) == F.zero
    ensures GetVectorFieldPositional(F).sub(v, v) == GetVectorFieldPositional(F).zero(|v.data|)
  {
    var vf := GetVectorFieldPositional(F);
    assert vf.sub(v, v).data == vf.zero(|v.data|).data;
  }
}
