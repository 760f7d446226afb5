/** Fixed-shape matrices (src/Matrix.ts): a sequence of row vectors tagged
    with a `[Rows, Cols]` shape, built only through a constructor that
    checks the declared shape against the data. */
module Matrix {
  import opened Wrappers
  import opened Seqs
  import opened Sized
  import Vector

  type Matrix<A> = Sized2<seq<Vector.Vector<A>>>

  /** The shape tag and the rows agree: `Rows` rows, each a vector of
      `Cols` elements whose own recorded length is `Cols`. */
  ghost predicate Valid<A>(m: Matrix<A>)
  {
    && |m.data| == m.shape.0
    && forall i :: 0 <= i < |m.data| ==> m.data[i].shape == m.shape.1 && |m.data[i].data| == m.shape.1
  }

  /** The module's `wrap`: tags the rows with `shape` as given, without
      looking at the rows. */
  function Wrap<A>(shape: (int, int), rows: seq<Vector.Vector<A>>): (m: Matrix<A>)
    ensures m.shape == shape
    ensures m.data == rows
  {
    MkWrap2(shape, rows)
  }

  /** `from2dArray([rows, cols])(arr)`: keep `arr` if it has `rows` rows,
      then only if every row has `cols` elements, then turn each row into a
      vector and tag the whole with `[rows, cols]`. */
  function From2dArray<A>(rows: int, cols: int, arr: seq<seq<A>>): (r: Option<Matrix<A>>)
    ensures r.Some? <==> |arr| == rows && forall i :: 0 <= i < |arr| ==> |arr[i]| == cols
    ensures r.Some? ==> r.value.shape == (rows, cols) && |r.value.data| == rows
    ensures r.Some? ==> forall i :: 0 <= i < |arr| ==> r.value.data[i] == Vector.FromArray(arr[i])
  {
    var counted := FromPredicate(arr, (a: seq<seq<A>>) => |a| == rows);
    var uniform := Filter(counted, (a: seq<seq<A>>) => Every(a, (row: seq<A>) => |row| == cols));
    Wrappers.Map(uniform, (a: seq<seq<A>>) => Wrap((rows, cols), MapSeq(a, (row: seq<A>) => Vector.FromArray(row))))
  }

  /** Every matrix `from2dArray` returns satisfies `Valid`, and its rows hold
      exactly the data of the input rows. */
  lemma From2dArrayValid<A>(rows: int, cols: int, arr: seq<seq<A>>)
    ensures From2dArray(rows, cols, arr).Some? ==>
              && Valid(From2dArray(rows, cols, arr).value)
              && forall i :: 0 <= i < rows ==> Vector.ToArray(From2dArray(rows, cols, arr).value.data[i]) == arr[i]
  {
  }

  /** The three shapes of input the construction distinguishes: a 2 x 3 table
      is accepted with its rows intact, a short row or a missing row is
      refused. */
  lemma From2dArrayExamples()
    ensures From2dArray(2, 3, [[1, 2, 3], [4, 5, 6]]).Some?
    ensures From2dArray(2, 3, [[1, 2, 3], [4, 5, 6]]).value.data
            == [Vector.FromArray([1, 2, 3]), Vector.FromArray([4, 5, 6])]
    ensures From2dArray(2, 3, [[1, 2], [4, 5, 6]]) == None
    ensures From2dArray(3, 3, [[1, 2, 3], [4, 5, 6]]) == None
  {
    var short: seq<seq<int>> := [[1, 2], [4, 5, 6]];
    assert |short[0]| != 3;
  }
}
