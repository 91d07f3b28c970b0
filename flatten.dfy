/**
 * The flattening index used by generate_mesh: cell (i, j) of a grid with
 * `rows` rows and `cols` columns goes to buffer row `i * rows + j`. The
 * source multiplies by the row count H, not by the row length W; this is the
 * usual row-major index only because the demo fixes W == H.
 */
module Flatten {

  function Flat(i: nat, j: nat, stride: nat): nat {
    i * stride + j
  }

  /** Grid row of buffer row k. */
  function RowOf(k: nat, stride: nat): nat
    requires stride > 0
  {
    k / stride
  }

  /** Grid column of buffer row k. */
  function ColOf(k: nat, stride: nat): nat
    requires stride > 0
  {
    k % stride
  }

  lemma MulSub(a: int, b: int, d: int)
    ensures (a - b) * d == a * d - b * d
  {
  }

  lemma MulAtLeast(a: int, d: nat)
    requires a >= 1
    ensures a * d >= d
  {
  }

  /** Euclidean division by a positive stride has exactly one answer. */
  lemma {:induction false} DivModUnique(k: nat, q: nat, r: nat, stride: nat)
    requires r < stride
    requires k == q * stride + r
    ensures k / stride == q && k % stride == r
  {
    var q0, r0 := k / stride, k % stride;
    assert k == q0 * stride + r0;
    if q > q0 {
      MulSub(q, q0, stride);
      MulAtLeast(q - q0, stride);
    } else if q < q0 {
      MulSub(q0, q, stride);
      MulAtLeast(q0 - q, stride);
    }
  }

  /** Flattening a cell and splitting the index again gives the cell back. */
  lemma SplitFlat(i: nat, j: nat, stride: nat)
    requires j < stride
    ensures RowOf(Flat(i, j, stride), stride) == i
    ensures ColOf(Flat(i, j, stride), stride) == j
  {
    DivModUnique(Flat(i, j, stride), i, j, stride);
  }

  /** The loop order: a cell of an earlier row has a smaller buffer row. */
  lemma {:induction false} FlatEarlierRow(i': nat, j': nat, i: nat, j: nat, stride: nat)
    requires i' < i && j' < stride
    ensures Flat(i', j', stride) < Flat(i, j, stride)
  {
    assert Flat(i', j', stride) < (i' + 1) * stride;
    MulSub(i, i' + 1, stride);
    assert (i - (i' + 1)) * stride >= 0;
  }

  /** Rows of a square grid land inside the buffer of rows * cols entries. */
  lemma {:induction false} FlatInBuffer(i: nat, j: nat, rows: nat, cols: nat)
    requires cols == rows
    requires i < rows && j < cols
    ensures Flat(i, j, rows) < rows * cols
  {
    assert Flat(i, j, rows) < (i + 1) * rows <= rows * rows;
  }

  /** Every buffer row of a square grid comes from exactly one cell. */
  lemma {:induction false} FlatOnto(k: nat, rows: nat, cols: nat)
    requires cols == rows
    requires k < rows * cols
    ensures RowOf(k, rows) < rows && ColOf(k, rows) < cols
    ensures Flat(RowOf(k, rows), ColOf(k, rows), rows) == k
  {
    var q, r := k / rows, k % rows;
    assert k == q * rows + r;
  }

  /** Two cells whose columns are below the stride never share a buffer row. */
  lemma FlatInjective(i: nat, j: nat, i': nat, j': nat, stride: nat)
    requires j < stride && j' < stride
    requires Flat(i, j, stride) == Flat(i', j', stride)
    ensures i == i' && j == j'
  {
    SplitFlat(i, j, stride);
    SplitFlat(i', j', stride);
  }

  /**
   * Why the square shape matters: with more columns than rows, two different
   * cells are sent to the same buffer row, so one write is lost.
   */
  lemma WideGridCollides(rows: nat, cols: nat)
    requires 0 < rows < cols
    ensures Flat(0, rows, rows) == Flat(1, 0, rows)
  {
  }

  /**
   * With fewer columns than rows (and at least two rows), buffer row `cols`
   * is inside the buffer but no cell is sent to it, so it keeps its zero.
   */
  lemma {:induction false} TallGridLeavesGap(rows: nat, cols: nat)
    requires cols < rows && 1 < rows
    ensures cols < rows * cols || cols == 0
    ensures forall i, j :: 0 <= i < rows && 0 <= j < cols ==> Flat(i, j, rows) != cols
  {
    forall i: nat, j: nat | i < rows && j < cols
      ensures Flat(i, j, rows) != cols
    {
      if i >= 1 {
        assert Flat(i, j, rows) >= i * rows >= rows > cols;
      }
    }
    if cols > 0 {
      assert rows * cols >= 2 * cols > cols;
    }
  }
}
