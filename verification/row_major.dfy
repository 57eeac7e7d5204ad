/**
 The row-major index map used by the host-side multiply: cell (i, j) of a
 matrix with `cols` columns lives at flat offset i * cols + j. This module
 proves that the map is a bijection from [0, rows) x [0, cols) onto
 [0, rows * cols), and that the order in which two nested loops over i and j
 visit the cells is exactly 0, 1, ..., rows * cols - 1.
 */
module RowMajor {

  /** Flat offset of cell (i, j) in a row-major buffer with `cols` columns. */
  function Flatten(i: nat, j: nat, cols: nat): nat
  {
    i * cols + j
  }

  /** Row and column of flat offset `p` in a row-major buffer with `cols` columns. */
  function Unflatten(p: nat, cols: nat): (ij: (nat, nat))
    requires cols > 0
    ensures ij.1 < cols
  {
    (p / cols, p % cols)
  }

  /** a <= b implies a * c <= b * c for naturals. */
  lemma MulMonotone(a: nat, b: nat, c: nat)
    requires a <= b
    ensures a * c <= b * c
  {
    assert b * c == a * c + (b - a) * c;
  }

  /** A cell inside the grid maps to an offset inside the buffer. */
  lemma FlattenInBounds(i: nat, j: nat, rows: nat, cols: nat)
    requires i < rows && j < cols
    ensures Flatten(i, j, cols) < rows * cols
  {
    MulMonotone(i + 1, rows, cols);
    assert (i + 1) * cols == i * cols + cols;
  }

  /** Every cell of row i lies before every cell of any later row. */
  lemma FlattenRowOrder(i: nat, j: nat, i': nat, j': nat, cols: nat)
    requires i < i' && j < cols
    ensures Flatten(i, j, cols) < Flatten(i', j', cols)
  {
    MulMonotone(i + 1, i', cols);
    assert (i + 1) * cols == i * cols + cols;
  }

  /** Two cells with the same offset are the same cell. */
  lemma FlattenInjective(i: nat, j: nat, i': nat, j': nat, cols: nat)
    requires j < cols && j' < cols
    requires Flatten(i, j, cols) == Flatten(i', j', cols)
    ensures i == i' && j == j'
  {
    if i < i' {
      FlattenRowOrder(i, j, i', j', cols);
    } else if i' < i {
      FlattenRowOrder(i', j', i, j, cols);
    }
  }

  /** Unflatten undoes Flatten. */
  lemma UnflattenFlatten(i: nat, j: nat, cols: nat)
    requires j < cols
    ensures Unflatten(Flatten(i, j, cols), cols) == (i, j)
  {
    var p := Flatten(i, j, cols);
    var q, r := p / cols, p % cols;
    assert p == q * cols + r;
    FlattenInjective(i, j, q, r, cols);
  }

  /** Flatten undoes Unflatten, and an offset inside the buffer comes from a cell inside the grid. */
  lemma FlattenUnflatten(p: nat, rows: nat, cols: nat)
    requires p < rows * cols
    ensures cols > 0
    ensures Unflatten(p, cols).0 < rows && Unflatten(p, cols).1 < cols
    ensures Flatten(Unflatten(p, cols).0, Unflatten(p, cols).1, cols) == p
  {
    var q, r := p / cols, p % cols;
    assert p == q * cols + r;
    if q >= rows {
      MulMonotone(rows, q, cols);
    }
  }

  /**
   The map (i, j) |-> i * cols + j is a bijection from [0, rows) x [0, cols)
   onto [0, rows * cols): injective on the grid, and onto the buffer.
   */
  lemma RowMajorBijection(rows: nat, cols: nat)
    ensures forall i: nat, j: nat, i': nat, j': nat ::
              (i < rows && j < cols && i' < rows && j' < cols &&
               Flatten(i, j, cols) == Flatten(i', j', cols)) ==> i == i' && j == j'
    ensures forall i: nat, j: nat :: i < rows && j < cols ==> Flatten(i, j, cols) < rows * cols
    ensures rows * cols > 0 ==> cols > 0
    ensures cols > 0 ==> forall p: nat :: p < rows * cols ==>
              var ij := Unflatten(p, cols);
              ij.0 < rows && Flatten(ij.0, ij.1, cols) == p
  {
    forall i: nat, j: nat, i': nat, j': nat |
      i < rows && j < cols && i' < rows && j' < cols &&
      Flatten(i, j, cols) == Flatten(i', j', cols)
      ensures i == i' && j == j'
    {
      FlattenInjective(i, j, i', j', cols);
    }
    forall i: nat, j: nat | i < rows && j < cols
      ensures Flatten(i, j, cols) < rows * cols
    {
      FlattenInBounds(i, j, rows, cols);
    }
    if rows * cols > 0 {
      forall p: nat | p < rows * cols
        ensures Unflatten(p, cols).0 < rows
        ensures Flatten(Unflatten(p, cols).0, Unflatten(p, cols).1, cols) == p
      {
        FlattenUnflatten(p, rows, cols);
      }
    }
  }

  /** Offsets written by the inner loop for row i, in order: j = 0, 1, ..., cols - 1. */
  function RowTrace(i: nat, count: nat, cols: nat): seq<nat>
  {
    seq(count, j requires 0 <= j => Flatten(i, j, cols))
  }

  /** Offsets written by the two nested loops over the first `rows` rows, in order. */
  function WriteTrace(rows: nat, cols: nat): seq<nat>
  {
    if rows == 0 then [] else WriteTrace(rows - 1, cols) + RowTrace(rows - 1, cols, cols)
  }

  /**
   The nested loops write offsets 0, 1, ..., rows * cols - 1 in increasing
   order: every cell of the output is written exactly once.
   */
  lemma {:induction false} WriteTraceIsIdentity(rows: nat, cols: nat)
    ensures WriteTrace(rows, cols) == seq(rows * cols, p => p)
  {
    if rows > 0 {
      WriteTraceIsIdentity(rows - 1, cols);
      var prev := WriteTrace(rows - 1, cols);
      var t := WriteTrace(rows, cols);
      assert (rows - 1) * cols + cols == rows * cols;
      assert |t| == rows * cols;
      forall p | 0 <= p < rows * cols
        ensures t[p] == p
      {
        if p < (rows - 1) * cols {
          assert t[p] == prev[p];
        } else {
          assert t[p] == RowTrace(rows - 1, cols, cols)[p - (rows - 1) * cols];
        }
      }
    }
  }
}
