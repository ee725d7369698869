/**
 * Row-major reshaping of flat sequences, as numpy's `reshape` does it: a flat
 * sequence becomes `rows` rows of `cols` elements, and a 2-D array of uniform
 * rows flattens back to one sequence. The reshape is refused when the element
 * count does not match the requested shape.
 */
module Layout {
  import opened Wrappers

  /** Every row of `m` has exactly `cols` elements. */
  predicate Uniform<T>(m: seq<seq<T>>, cols: nat)
  {
    forall r :: 0 <= r < |m| ==> |m[r]| == cols
  }

  /** Row i of a flat sequence read as rows of `cols` elements. */
  function RowOf<T>(a: seq<T>, cols: nat, i: nat): seq<T>
    requires i * cols + cols <= |a|
  {
    a[i * cols .. i * cols + cols]
  }

  /**
   * `m` is `flat` laid out row-major as `rows` rows of `cols` elements: row i
   * of `m` is elements i * cols .. i * cols + cols - 1 of `flat` (so element
   * (i, j) of `m` is element i * cols + j of `flat`, see RowMajorAt).
   */
  ghost predicate RowMajor<T>(m: seq<seq<T>>, flat: seq<T>, rows: nat, cols: nat)
  {
    && |m| == rows && Uniform(m, cols) && |flat| == rows * cols
    && forall i :: 0 <= i < rows ==> i * cols + cols <= |flat| && m[i] == RowOf(flat, cols, i)
  }

  /** Concatenates the rows of `m` in order (row-major flattening). */
  function Flatten<T>(m: seq<seq<T>>): seq<T>
  {
    if |m| == 0 then [] else m[0] + Flatten(m[1..])
  }

  /** Splits `flat` into `rows` consecutive rows of `cols` elements. */
  function Rows<T>(flat: seq<T>, rows: nat, cols: nat): (m: seq<seq<T>>)
    requires |flat| == rows * cols
    ensures |m| == rows && Uniform(m, cols)
    decreases rows
  {
    if rows == 0 then []
    else
      MulSucc(rows - 1, cols);
      [flat[..cols]] + Rows(flat[cols..], rows - 1, cols)
  }

  /**
   * numpy's two-dimensional reshape: `rows` rows of `cols` elements in
   * row-major order, or None when rows * cols differs from the element count.
   */
  function Reshape<T>(flat: seq<T>, rows: nat, cols: nat): (r: Option<seq<seq<T>>>)
    ensures r.Some? <==> |flat| == rows * cols
    ensures r.Some? ==> RowMajor(r.value, flat, rows, cols)
    ensures r.Some? ==> Flatten(r.value) == flat
  {
    if |flat| != rows * cols then None
    else
      var m := Rows(flat, rows, cols);
      FlattenRows(flat, rows, cols);
      RowsRowMajor(flat, rows, cols);
      Some(m)
  }

  // ---------------------------------------------------------------------------
  // Index arithmetic
  // ---------------------------------------------------------------------------

  /** (a + 1) * b distributes; stated once so that index arithmetic stays linear elsewhere. */
  lemma MulSucc(a: nat, b: nat)
    ensures (a + 1) * b == a * b + b
  {
  }

  /** Multiplication by a natural number is monotone. */
  lemma MulMono(a: nat, b: nat, c: nat)
    requires a <= b
    ensures a * c <= b * c
  {
  }

  /** Row r of a rows-by-cols array ends within its rows * cols elements. */
  lemma RowInRange(r: nat, rows: nat, cols: nat)
    requires r < rows
    ensures r * cols + cols <= rows * cols
  {
    MulSucc(r, cols);
    MulMono(r + 1, rows, cols);
  }

  /** Index (r, c) of a rows-by-cols array lies inside its rows * cols elements. */
  lemma IndexInRange(r: nat, c: nat, rows: nat, cols: nat)
    requires r < rows && c < cols
    ensures r * cols + c < rows * cols && r * cols + cols <= rows * cols
  {
    RowInRange(r, rows, cols);
  }

  /** Dropping the first row shifts every later row down by one. */
  lemma RowOfTail<T>(a: seq<T>, n: nat, cols: nat, i: nat)
    requires |a| == n * cols && i + 1 < n
    ensures cols <= |a| && i * cols + cols <= (n - 1) * cols && (i + 1) * cols + cols <= |a|
    ensures RowOf(a[cols..], cols, i) == RowOf(a, cols, i + 1)
  {
    MulSucc(i, cols);
    MulSucc(i + 1, cols);
    MulSucc(n - 1, cols);
    MulMono(i + 1, n - 1, cols);
    MulMono(i + 2, n, cols);
  }

  // ---------------------------------------------------------------------------
  // Reshaping and flattening
  // ---------------------------------------------------------------------------

  /** Row r of the reshaped array is row r of the flat sequence. */
  lemma {:induction false} RowsAt<T>(flat: seq<T>, rows: nat, cols: nat, r: nat)
    requires |flat| == rows * cols && r < rows
    ensures r * cols + cols <= |flat| && Rows(flat, rows, cols)[r] == RowOf(flat, cols, r)
    decreases rows
  {
    RowInRange(r, rows, cols);
    MulSucc(rows - 1, cols);
    if r > 0 {
      RowsAt(flat[cols..], rows - 1, cols, r - 1);
      RowOfTail(flat, rows, cols, r - 1);
    }
  }

  /** Rows lays its input out row-major. */
  lemma RowsRowMajor<T>(flat: seq<T>, rows: nat, cols: nat)
    requires |flat| == rows * cols
    ensures RowMajor(Rows(flat, rows, cols), flat, rows, cols)
  {
    forall i | 0 <= i < rows
      ensures i * cols + cols <= |flat| && Rows(flat, rows, cols)[i] == RowOf(flat, cols, i)
    {
      RowsAt(flat, rows, cols, i);
    }
  }

  /** Element (r, c) of a row-major layout is element r * cols + c of the flat sequence. */
  lemma RowMajorAt<T>(m: seq<seq<T>>, flat: seq<T>, rows: nat, cols: nat, r: nat, c: nat)
    requires RowMajor(m, flat, rows, cols) && r < rows && c < cols
    ensures r * cols + c < |flat| && m[r][c] == flat[r * cols + c]
  {
    assert m[r] == RowOf(flat, cols, r);
  }

  /** A uniform array of |m| rows of `cols` elements flattens to |m| * cols elements. */
  lemma {:induction false} FlattenLength<T>(m: seq<seq<T>>, cols: nat)
    requires Uniform(m, cols)
    ensures |Flatten(m)| == |m| * cols
  {
    if |m| > 0 {
      FlattenLength(m[1..], cols);
      MulSucc(|m| - 1, cols);
    }
  }

  /** Element (i, j) of a uniform array lands at position i * cols + j of its flattening. */
  lemma {:induction false} FlattenAt<T>(m: seq<seq<T>>, cols: nat, i: nat, j: nat)
    requires Uniform(m, cols)
    requires i < |m| && j < cols
    ensures |Flatten(m)| == |m| * cols
    ensures i * cols + j < |Flatten(m)| && Flatten(m)[i * cols + j] == m[i][j]
  {
    FlattenLength(m, cols);
    IndexInRange(i, j, |m|, cols);
    if i > 0 {
      FlattenAt(m[1..], cols, i - 1, j);
      MulSucc(i - 1, cols);
    }
  }

  /** Row i of a uniform array is row i of its flattening. */
  lemma FlattenRow<T>(m: seq<seq<T>>, cols: nat, i: nat)
    requires Uniform(m, cols) && i < |m|
    ensures |Flatten(m)| == |m| * cols && i * cols + cols <= |Flatten(m)|
    ensures RowOf(Flatten(m), cols, i) == m[i]
  {
    FlattenLength(m, cols);
    RowInRange(i, |m|, cols);
    forall j | 0 <= j < cols
      ensures Flatten(m)[i * cols + j] == m[i][j]
    {
      FlattenAt(m, cols, i, j);
    }
  }

  /** Reshaping loses nothing: flattening the rows gives back the flat sequence. */
  lemma {:induction false} FlattenRows<T>(flat: seq<T>, rows: nat, cols: nat)
    requires |flat| == rows * cols
    ensures Flatten(Rows(flat, rows, cols)) == flat
    decreases rows
  {
    if rows > 0 {
      MulSucc(rows - 1, cols);
      FlattenRows(flat[cols..], rows - 1, cols);
      assert flat == flat[..cols] + flat[cols..];
    }
  }

  /** Flattening loses nothing: a uniform array is recovered by reshaping its flattening. */
  lemma {:induction false} RowsFlatten<T>(m: seq<seq<T>>, cols: nat)
    requires Uniform(m, cols)
    ensures |Flatten(m)| == |m| * cols
    ensures Rows(Flatten(m), |m|, cols) == m
  {
    FlattenLength(m, cols);
    if |m| > 0 {
      RowsFlatten(m[1..], cols);
      assert Flatten(m)[..cols] == m[0];
      assert Flatten(m)[cols..] == Flatten(m[1..]);
      assert m == [m[0]] + m[1..];
    }
  }

  /** Two sequences of n rows of `cols` elements agree when every row does. */
  lemma {:induction false} EqualByRows<T>(a: seq<T>, b: seq<T>, n: nat, cols: nat)
    requires |a| == n * cols && |b| == n * cols
    requires forall i :: 0 <= i < n ==> i * cols + cols <= n * cols && RowOf(a, cols, i) == RowOf(b, cols, i)
    ensures a == b
    decreases n
  {
    if n > 0 {
      MulSucc(n - 1, cols);
      assert RowOf(a, cols, 0) == RowOf(b, cols, 0);
      forall i | 0 <= i < n - 1
        ensures i * cols + cols <= (n - 1) * cols && RowOf(a[cols..], cols, i) == RowOf(b[cols..], cols, i)
      {
        RowOfTail(a, n, cols, i);
        RowOfTail(b, n, cols, i);
      }
      EqualByRows(a[cols..], b[cols..], n - 1, cols);
      assert a == a[..cols] + a[cols..];
      assert b == b[..cols] + b[cols..];
    }
  }
}
