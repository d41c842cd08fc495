// Two-dimensional images as values: an OpenCV matrix with `rows` rows and
// `cols` columns is an `array2` in the imperative parts of the model, and the
// specification functions work on its row-major view, a sequence of rows.

module Grids {

  /** The value view of a matrix: one sequence per row. */
  type Rows<T> = seq<seq<T>>

  /** `g` is a matrix of `h` rows of `w` cells each. */
  predicate IsGrid<T>(g: Rows<T>, h: nat, w: nat)
  {
    |g| == h && forall r :: 0 <= r < h ==> |g[r]| == w
  }

  /** `a` and `b` have the same number of rows and matching row lengths. */
  predicate SameShape<A, B>(a: Rows<A>, b: Rows<B>)
  {
    |a| == |b| && forall r :: 0 <= r < |a| ==> |a[r]| == |b[r]|
  }

  /** The current contents of a matrix, row by row. */
  function Cells<T>(a: array2<T>): (g: Rows<T>)
    reads a
    ensures IsGrid(g, a.Length0, a.Length1)
    ensures forall r, c :: 0 <= r < a.Length0 && 0 <= c < a.Length1 ==> g[r][c] == a[r, c]
  {
    seq(a.Length0, r requires 0 <= r < a.Length0 reads a =>
      seq(a.Length1, c requires 0 <= c < a.Length1 reads a => a[r, c]))
  }

  /** Two matrices of the same shape that agree cell by cell are equal. */
  lemma CellwiseEqual<T>(a: Rows<T>, b: Rows<T>)
    requires SameShape(a, b)
    requires forall r, c :: 0 <= r < |a| && 0 <= c < |a[r]| ==> a[r][c] == b[r][c]
    ensures a == b
  {
    forall r | 0 <= r < |a|
      ensures a[r] == b[r]
    {
      assert |a[r]| == |b[r]|;
    }
  }
}
