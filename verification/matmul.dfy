/**
 The host-side reference multiply `matrixMultiply` of src/main.c: C (M x N)
 is computed from A (M x K) and B (K x N), all three stored as flat
 row-major buffers. Elements are abstracted from 32-bit floats to exact
 integers; the summation order of the source (one scalar per cell,
 increasing k, starting from zero) is kept. For finite inputs the model
 differs from the source only in rounding; IEEE infinities and NaN have no
 counterpart here.
 */
module MatMul {
  import opened RowMajor

  /**
   The value the accumulator `result` holds for cell (i, j) after the first
   k iterations of the innermost loop: ((0 + a0 * b0) + a1 * b1) + ...
   where a_k = A[i * K + k] and b_k = B[k * N + j].
   */
  function Accumulate(A: seq<int>, B: seq<int>, M: nat, N: nat, K: nat, i: nat, j: nat, k: nat): int
    requires M * K <= |A| && K * N <= |B|
    requires i < M && j < N && k <= K
    decreases k
  {
    if k == 0 then 0
    else
      FlattenInBounds(i, k - 1, M, K);
      FlattenInBounds(k - 1, j, K, N);
      Accumulate(A, B, M, N, K, i, j, k - 1) + A[Flatten(i, k - 1, K)] * B[Flatten(k - 1, j, N)]
  }

  /** The value the multiply stores into cell (i, j) of C: the full accumulation over k < K. */
  function Cell(A: seq<int>, B: seq<int>, M: nat, N: nat, K: nat, i: nat, j: nat): int
    requires M * K <= |A| && K * N <= |B|
    requires i < M && j < N
  {
    Accumulate(A, B, M, N, K, i, j, K)
  }

  /**
   One iteration of the innermost loop: after k + 1 steps the accumulator
   holds the value after k steps plus A[i * K + k] * B[k * N + j], and both
   reads are in bounds.
   */
  lemma AccumulateStep(A: seq<int>, B: seq<int>, M: nat, N: nat, K: nat, i: nat, j: nat, k: nat)
    requires M * K <= |A| && K * N <= |B|
    requires i < M && j < N && k < K
    ensures i * K + k < |A| && k * N + j < |B|
    ensures Accumulate(A, B, M, N, K, i, j, k + 1)
            == Accumulate(A, B, M, N, K, i, j, k) + A[i * K + k] * B[k * N + j]
  {
    FlattenInBounds(i, k, M, K);
    FlattenInBounds(k, j, K, N);
  }

  /**
   The same per-cell accumulation collected into one value, indexed by flat
   offset: an M x N row-major buffer whose cell (i, j) holds
   Cell(A, B, M, N, K, i, j).
   */
  function Product(A: seq<int>, B: seq<int>, M: nat, N: nat, K: nat): (C: seq<int>)
    requires M * K <= |A| && K * N <= |B|
    ensures |C| == M * N
    ensures forall i: nat, j: nat :: i < M && j < N ==>
              Flatten(i, j, N) < |C| && C[Flatten(i, j, N)] == Cell(A, B, M, N, K, i, j)
  {
    if N == 0 then
      assert M * N == 0;
      []
    else
      var C := seq(M * N, p requires 0 <= p < M * N =>
                 FlattenUnflatten(p, M, N);
                 Cell(A, B, M, N, K, p / N, p % N));
      assert forall i: nat, j: nat :: i < M && j < N ==>
               Flatten(i, j, N) < |C| && C[Flatten(i, j, N)] == Cell(A, B, M, N, K, i, j) by {
        forall i: nat, j: nat | i < M && j < N
          ensures Flatten(i, j, N) < |C| && C[Flatten(i, j, N)] == Cell(A, B, M, N, K, i, j)
        {
          FlattenInBounds(i, j, M, N);
          UnflattenFlatten(i, j, N);
        }
      }
      C
  }

  /**
   The innermost loop of the host multiply for one cell (i, j): every read
   of A and B stays in bounds and the accumulator ends as the left-to-right
   sum over k of A[i * K + k] * B[k * N + j], starting from zero.
   */
  method CellValue(A: array<int>, B: array<int>, M: nat, N: nat, K: nat, i: nat, j: nat)
    returns (result: int)
    requires M * K <= A.Length && K * N <= B.Length
    requires i < M && j < N
    ensures result == Cell(A[..], B[..], M, N, K, i, j)
  {
    result := 0;
    var k := 0;
    while k < K
      invariant 0 <= k <= K
      invariant result == Accumulate(A[..], B[..], M, N, K, i, j, k)
    {
      FlattenInBounds(i, k, M, K);
      FlattenInBounds(k, j, K, N);
      result := result + A[i * K + k] * B[k * N + j];
      k := k + 1;
    }
  }

  /**
   The middle loop of the host multiply for row i: writes cells
   i * N + 0, ..., i * N + N - 1 of C in that order, each with its cell
   value, and leaves every other cell of C as it was.
   */
  method MultiplyRow(A: array<int>, B: array<int>, C: array<int>, M: nat, N: nat, K: nat, i: nat,
                     ghost a: seq<int>, ghost b: seq<int>)
    returns (ghost written: seq<nat>)
    requires a == A[..] && b == B[..]
    requires M * K <= A.Length && K * N <= B.Length && M * N <= C.Length
    requires C != A && C != B
    requires i < M
    modifies C
    ensures A[..] == a && B[..] == b
    ensures forall j: nat :: j < N ==>
              Flatten(i, j, N) < C.Length && C[Flatten(i, j, N)] == Cell(a, b, M, N, K, i, j)
    ensures forall p :: 0 <= p < C.Length && !(Flatten(i, 0, N) <= p < Flatten(i, N, N)) ==>
              C[p] == old(C[p])
    ensures written == RowTrace(i, N, N)
  {
    written := [];
    var j := 0;
    while j < N
      invariant 0 <= j <= N
      invariant A[..] == a && B[..] == b
      invariant forall j': nat :: j' < j ==>
                  Flatten(i, j', N) < C.Length && C[Flatten(i, j', N)] == Cell(a, b, M, N, K, i, j')
      invariant forall p :: 0 <= p < C.Length && !(Flatten(i, 0, N) <= p < Flatten(i, j, N)) ==>
                  C[p] == old(C[p])
      invariant written == RowTrace(i, j, N)
    {
      var result := CellValue(A, B, M, N, K, i, j);
      FlattenInBounds(i, j, M, N);
      C[i * N + j] := result;
      written := written + [i * N + j];
      assert RowTrace(i, j + 1, N) == RowTrace(i, j, N) + [Flatten(i, j, N)];
      j := j + 1;
    }
  }

  /**
   The host multiply on arrays. Every read of A and B and every write of C
   stays in bounds; afterwards every cell (i, j) with i < M and j < N holds
   the left-to-right accumulation over k, C[..M * N] equals Product, cells of C past M * N are untouched (so nothing changes when
   M or N is zero), every cell is zero when K is zero, and A and B are only
   read.
   The ghost out-parameter `written` records the offsets of C written, in
   order.
   */
  method MatrixMultiply(A: array<int>, B: array<int>, C: array<int>, M: nat, N: nat, K: nat)
    returns (ghost written: seq<nat>)
    requires M * K <= A.Length && K * N <= B.Length && M * N <= C.Length
    requires C != A && C != B
    modifies C
    ensures A[..] == old(A[..]) && B[..] == old(B[..])
    ensures forall i: nat, j: nat :: i < M && j < N ==>
              Flatten(i, j, N) < C.Length && C[Flatten(i, j, N)] == Cell(A[..], B[..], M, N, K, i, j)
    ensures C[..M * N] == Product(A[..], B[..], M, N, K)
    ensures forall p :: M * N <= p < C.Length ==> C[p] == old(C[p])
    ensures M == 0 || N == 0 ==> C[..] == old(C[..])
    ensures K == 0 ==> forall p :: 0 <= p < M * N ==> C[p] == 0
    ensures written == WriteTrace(M, N)
  {
    ghost var a, b := A[..], B[..];
    written := [];
    var i := 0;
    while i < M
      invariant 0 <= i <= M
      invariant A[..] == a && B[..] == b
      invariant forall i': nat, j': nat :: i' < i && j' < N ==>
                  Flatten(i', j', N) < C.Length && C[Flatten(i', j', N)] == Cell(a, b, M, N, K, i', j')
      invariant forall p :: Flatten(i, 0, N) <= p < C.Length ==> C[p] == old(C[p])
      invariant written == WriteTrace(i, N)
    {
      ghost var row := MultiplyRow(A, B, C, M, N, K, i, a, b);
      written := written + row;
      forall i': nat, j': nat | i' < i && j' < N
        ensures Flatten(i', j', N) < Flatten(i, 0, N)
      {
        FlattenRowOrder(i', j', i, 0, N);
      }
      assert Flatten(i + 1, 0, N) == Flatten(i, N, N);
      i := i + 1;
    }
    assert Flatten(M, 0, N) == M * N;
    var P := Product(a, b, M, N, K);
    forall p | 0 <= p < M * N
      ensures C[..M * N][p] == P[p]
    {
      FlattenUnflatten(p, M, N);
    }
    if K == 0 {
      EmptyReductionIsZero(a, b, M, N);
    }
  }

  /** With an empty reduction dimension (K = 0) every output cell is zero. */
  lemma EmptyReductionIsZero(A: seq<int>, B: seq<int>, M: nat, N: nat)
    ensures Product(A, B, M, N, 0) == seq(M * N, _ => 0)
  {
    var C := Product(A, B, M, N, 0);
    forall p | 0 <= p < M * N
      ensures C[p] == 0
    {
      FlattenUnflatten(p, M, N);
    }
  }

  /** Accumulating against an all-zero left operand stays at zero. */
  lemma {:induction false} AccumulateZeroLeft(A: seq<int>, B: seq<int>, M: nat, N: nat, K: nat, i: nat, j: nat, k: nat)
    requires M * K <= |A| && K * N <= |B|
    requires i < M && j < N && k <= K
    requires forall p :: 0 <= p < |A| ==> A[p] == 0
    ensures Accumulate(A, B, M, N, K, i, j, k) == 0
  {
    if k > 0 {
      AccumulateZeroLeft(A, B, M, N, K, i, j, k - 1);
      FlattenInBounds(i, k - 1, M, K);
    }
  }

  /** A zero-filled left operand gives a zero-filled product. */
  lemma ZeroLeftOperand(A: seq<int>, B: seq<int>, M: nat, N: nat, K: nat)
    requires M * K <= |A| && K * N <= |B|
    requires forall p :: 0 <= p < |A| ==> A[p] == 0
    ensures Product(A, B, M, N, K) == seq(M * N, _ => 0)
  {
    var C := Product(A, B, M, N, K);
    forall p | 0 <= p < M * N
      ensures C[p] == 0
    {
      FlattenUnflatten(p, M, N);
      var ij := Unflatten(p, N);
      AccumulateZeroLeft(A, B, M, N, K, ij.0, ij.1, K);
    }
  }

  /** The n x n identity matrix as a row-major buffer. */
  function Identity(n: nat): (I: seq<int>)
    ensures |I| == n * n
    ensures forall r: nat, c: nat :: r < n && c < n ==>
              Flatten(r, c, n) < |I| && I[Flatten(r, c, n)] == (if r == c then 1 else 0)
  {
    if n == 0 then
      []
    else
      var I := seq(n * n, p requires 0 <= p < n * n => if p / n == p % n then 1 else 0);
      assert forall r: nat, c: nat :: r < n && c < n ==>
               Flatten(r, c, n) < |I| && I[Flatten(r, c, n)] == (if r == c then 1 else 0) by {
        forall r: nat, c: nat | r < n && c < n
          ensures Flatten(r, c, n) < |I| && I[Flatten(r, c, n)] == (if r == c then 1 else 0)
        {
          FlattenInBounds(r, c, n, n);
          UnflattenFlatten(r, c, n);
        }
      }
      I
  }

  /** Against an identity right operand, the accumulation for (i, j) picks up A[i * N + j] at step j. */
  lemma {:induction false} AccumulateRightIdentity(A: seq<int>, M: nat, N: nat, i: nat, j: nat, k: nat)
    requires M * N <= |A|
    requires i < M && j < N && k <= N
    ensures Flatten(i, j, N) < |A|
    ensures Accumulate(A, Identity(N), M, N, N, i, j, k) == (if k <= j then 0 else A[Flatten(i, j, N)])
  {
    FlattenInBounds(i, j, M, N);
    if k > 0 {
      AccumulateRightIdentity(A, M, N, i, j, k - 1);
    }
  }

  /** Multiplying by the identity on the right returns the left operand: A x I == A. */
  lemma RightIdentity(A: seq<int>, M: nat, N: nat)
    requires M * N <= |A|
    ensures Product(A, Identity(N), M, N, N) == A[..M * N]
  {
    var C := Product(A, Identity(N), M, N, N);
    forall p | 0 <= p < M * N
      ensures C[p] == A[p]
    {
      FlattenUnflatten(p, M, N);
      var ij := Unflatten(p, N);
      AccumulateRightIdentity(A, M, N, ij.0, ij.1, N);
    }
  }

  /** Against an identity left operand, the accumulation for (i, j) picks up B[i * N + j] at step i. */
  lemma {:induction false} AccumulateLeftIdentity(B: seq<int>, M: nat, N: nat, i: nat, j: nat, k: nat)
    requires M * N <= |B|
    requires i < M && j < N && k <= M
    ensures Flatten(i, j, N) < |B|
    ensures Accumulate(Identity(M), B, M, N, M, i, j, k) == (if k <= i then 0 else B[Flatten(i, j, N)])
  {
    FlattenInBounds(i, j, M, N);
    if k > 0 {
      AccumulateLeftIdentity(B, M, N, i, j, k - 1);
    }
  }

  /** Multiplying by the identity on the left returns the right operand: I x B == B. */
  lemma LeftIdentity(B: seq<int>, M: nat, N: nat)
    requires M * N <= |B|
    ensures Product(Identity(M), B, M, N, M) == B[..M * N]
  {
    var C := Product(Identity(M), B, M, N, M);
    forall p | 0 <= p < M * N
      ensures C[p] == B[p]
    {
      FlattenUnflatten(p, M, N);
      var ij := Unflatten(p, N);
      AccumulateLeftIdentity(B, M, N, ij.0, ij.1, M);
    }
  }

  /**
   A 2 x 2 fixture: [[1, 2], [3, 4]] x [[5, 6], [7, 8]] is
   [[19, 22], [43, 50]], each cell summed in increasing k.
   */
  lemma Fixture2x2(A: seq<int>, B: seq<int>)
    requires |A| == 4 && A[0] == 1 && A[1] == 2 && A[2] == 3 && A[3] == 4
    requires |B| == 4 && B[0] == 5 && B[1] == 6 && B[2] == 7 && B[3] == 8
    ensures var C := Product(A, B, 2, 2, 2);
            |C| == 4 && C[0] == 19 && C[1] == 22 && C[2] == 43 && C[3] == 50
  {
    var C := Product(A, B, 2, 2, 2);
    assert C[0] == 19 by {
      AccumulateStep(A, B, 2, 2, 2, 0, 0, 0);
      AccumulateStep(A, B, 2, 2, 2, 0, 0, 1);
      assert C[Flatten(0, 0, 2)] == Cell(A, B, 2, 2, 2, 0, 0);
    }
    assert C[1] == 22 by {
      AccumulateStep(A, B, 2, 2, 2, 0, 1, 0);
      AccumulateStep(A, B, 2, 2, 2, 0, 1, 1);
      assert C[Flatten(0, 1, 2)] == Cell(A, B, 2, 2, 2, 0, 1);
    }
    assert C[2] == 43 by {
      AccumulateStep(A, B, 2, 2, 2, 1, 0, 0);
      AccumulateStep(A, B, 2, 2, 2, 1, 0, 1);
      assert C[Flatten(1, 0, 2)] == Cell(A, B, 2, 2, 2, 1, 0);
    }
    assert C[3] == 50 by {
      AccumulateStep(A, B, 2, 2, 2, 1, 1, 0);
      AccumulateStep(A, B, 2, 2, 2, 1, 1, 1);
      assert C[Flatten(1, 1, 2)] == Cell(A, B, 2, 2, 2, 1, 1);
    }
  }
}
