# Host-side matrix multiply and status aggregation, modelled in Dafny

The repository offloads a dense matrix multiplication C = A x B to an OpenCL
device. Almost all of its host program is a chain of foreign OpenCL calls.
Two pieces have logic of their own, and this project models them.

- **`matrixMultiply`** (src/main.c) is the sequential host reference
  multiply. A is M x K, B is K x N and C is M x N, each a flat row-major
  buffer. For every output cell (i, j), one scalar accumulator starts at zero
  and adds `A[i*K + k] * B[k*N + j]` for k = 0, 1, ..., K-1. The result is
  stored at `C[i*N + j]`.
- **The "issue every call, OR the codes, check once" pattern.** It is used
  for the two blocking buffer writes and for the six kernel argument binds.
  Each call's `cl_int` status is OR-ed into `err`, and `err` is compared
  with `CL_SUCCESS` once, after all calls have been issued.

Modules:

- `RowMajor` (row_major.dfy) covers the index map (i, j) -> i*cols + j. It
  shows the map is a bijection from [0, rows) x [0, cols) onto
  [0, rows*cols), with an explicit inverse. It also shows that the writes of
  the two nested loops form exactly the sequence 0, 1, ..., rows*cols - 1.
- `MatMul` (matmul.dfy) holds the multiply:
  - `Accumulate` is the accumulator after k steps, a left fold in the source's
    summation order.
  - `Product` is the same per-cell sum, collected into one sequence and
    indexed by flat offset. It lets the loops' result be stated as a single
    value, which the zero, identity and fixture lemmas are about.
  - The array method is split into three parts, one per loop of the source:
    `CellValue` (the k loop), `MultiplyRow` (the j loop) and `MatrixMultiply`
    (the i loop).
  - Lemmas cover a zero reduction dimension, a zero operand, and identity
    operands on either side.
- `Status` (status.dfy) represents status codes as `bv32` bit patterns, with
  `CL_SUCCESS` = 0. `CombineStatus` folds `err |= code` over the calls. The
  module proves that the combined code is success exactly when every call
  succeeded. As an independent view of the same batch, it keeps the list of
  failed call positions.

Elements are exact integers instead of 32-bit floats. The summation order is
kept exactly. For finite float inputs whose sums do not overflow, the model
therefore differs from the source only in rounding. IEEE infinities and NaN
have no counterpart in the model: in the source, `0.0f * INFINITY` is NaN,
so algebraic facts such as "a zero operand gives a zero product" hold for the
program only when every input element is finite.

One observation from the model: the OR of two error codes is generally a
third, unrelated code. For example, CL_INVALID_KERNEL (-48) OR
CL_INVALID_ARG_INDEX (-49) gives the bit pattern of CL_INVALID_DEVICE (-33).
The source only compares the combined value with `CL_SUCCESS`, which the
model proves is sound. The value itself carries no diagnosis.

## Model

| member | source | states |
|---|---|---|
| RowMajor.FlattenInBounds | src/main.c:13-21 | a cell (i, j) with i < rows and j < cols has offset i*cols + j below rows*cols; this is why every read of A (i < M, k < K), every read of B (k < K, j < N) and every write of C (i < M, j < N) stays inside its buffer |
| RowMajor.FlattenInjective | src/main.c:13-21 | two cells with column below cols that share an offset are the same cell, so no two iterations write the same element of C |
| RowMajor.FlattenRowOrder | src/main.c:13-14 | every offset in row i lies before every offset of any later row, so a later row never overwrites an earlier row's results |
| RowMajor.UnflattenFlatten | src/main.c:21 | (offset / cols, offset mod cols) gives back (i, j) from i*cols + j when j < cols |
| RowMajor.FlattenUnflatten | src/main.c:21 | every offset below rows*cols comes from a cell with row below rows and column below cols, which is recovered by division and remainder |
| RowMajor.RowMajorBijection | src/main.c:13-21 | the map (i, j) -> i*N + j is injective on [0, M) x [0, N), stays inside [0, M*N), and reaches every offset of [0, M*N) |
| RowMajor.WriteTraceIsIdentity | src/main.c:13-23 | the offsets the nested i/j loops write, in order, are exactly 0, 1, ..., M*N - 1, so each cell of C is written once whatever it held before |
| MatMul.CellValue | src/main.c:15-19 | the k loop reads A and B only in bounds, and the accumulator starts at zero and ends as the sum over k < K of A[i*K + k] * B[k*N + j], added in increasing k |
| MatMul.MultiplyRow | src/main.c:14-22 | the j loop for row i writes offsets i*N, ..., i*N + N - 1 in that order, each with its cell value, and leaves every other element of C as it was |
| MatMul.MatrixMultiply | src/main.c:7-24 | after the call, C[i*N + j] is the left-to-right accumulation over k for every i < M and j < N, and C[..M*N] equals `Product`, the same sums collected by offset; elements of C past M*N are untouched, so C is unchanged when M or N is 0; every cell is 0 when K is 0; A and B are only read; the writes cover 0..M*N-1 once each |
| MatMul.AccumulateStep | src/main.c:17-19 | one iteration of the k loop reads A[i*K + k] and B[k*N + j] in bounds and adds their product to the accumulator |
| MatMul.Product | src/main.c:13-21 | the per-cell accumulation collected by flat offset: M*N elements, and the element at i*N + j is the accumulation over k for cell (i, j) |
| MatMul.EmptyReductionIsZero | src/main.c:15-21 | with K = 0 the inner loop never runs, so every output cell is the initial 0 |
| MatMul.ZeroLeftOperand | src/main.c:15-21 | a zero-filled A gives a zero-filled C, whatever B holds |
| MatMul.RightIdentity | src/main.c:15-21 | multiplying A (M x N) by the N x N identity gives back the first M*N elements of A |
| MatMul.LeftIdentity | src/main.c:15-21 | multiplying the M x M identity by B (M x N) gives back the first M*N elements of B |
| MatMul.Fixture2x2 | src/main.c:15-21 | [[1, 2], [3, 4]] times [[5, 6], [7, 8]] gives [[19, 22], [43, 50]] |
| Status.CombineStatus | src/main.c:149-155 | the value of err after err = c0 and then OR-ing in each further call's code ci is CL_SUCCESS exactly when every call returned CL_SUCCESS |
| Status.CombineKeepsBits | src/main.c:149-154 | every bit of every call's status code is set in the combined code, so no failure is masked by a later call |
| Status.CombineSingleFailure | src/main.c:149-154 | when exactly one call failed, the combined code is that call's own code |
| Status.CombineConcat | src/main.c:149-154 | OR-combining two batches of calls one after the other equals OR-ing the two batches' combined codes |
| Status.FailedCalls | src/main.c:149-155 | the list of failed call positions holds exactly the calls whose code is not CL_SUCCESS, in increasing call order |
| Status.CombineAgreesWithFailedCalls | src/main.c:149-158 | the single OR check reports success exactly when the list of failed calls is empty |
| Status.CheckOnce | src/main.c:155-158 | the single check after a batch lets the program proceed exactly when every call succeeded, and otherwise aborts at that stage |
| Status.WriteMatrices | src/main.c:138-145 | both blocking writes (A, then B) are issued, and the stage proceeds exactly when both returned CL_SUCCESS; otherwise it aborts at the write stage |
| Status.BindKernelArguments | src/main.c:149-158 | all six argument binds (A, B, C, M, N, K) are issued, and the stage proceeds exactly when all six returned CL_SUCCESS; otherwise it aborts at the bind stage |
| Status.CombinedCodeIsNotADiagnosis | src/main.c:150-155 | CL_INVALID_KERNEL OR-ed with CL_INVALID_ARG_INDEX gives CL_INVALID_DEVICE: the combined code only supports the success test |

## Left out

- All OpenCL calls are foreign code whose behaviour lives in the driver, so they are not modelled: platform and device discovery, context, command queue, program build, kernel creation, buffer creation, transfers, dispatch and release (src/main.c:43-99, 124-135, 161-179, 193-204). Their status codes enter the model only as the `bv32` inputs of the `Status` functions.
- The device-side kernel dispatched over the {M, N} grid with work-group shape {1, 1} (src/main.c:163-166) is not modelled. It is separate OpenCL C code, loaded at run time from `kernels/matrix_multiplication.cl` (src/main.c:32), and that file's text is not available.
- Reading the kernel source file (src/main.c:32-40, including the fixed 1 MiB read cap at line 5; src/main.cpp:6-16) is file I/O.
- Every error exit of the host program (src/main.c:33-36, 53-97, 110-113, 131-178) returns at once without releasing the OpenCL objects and host buffers it already holds. Release is a foreign call, so this is not modelled.
- The buffer-creation check (src/main.c:125-134) is not an OR aggregation. Each `clCreateBuffer` overwrites `err`, so failures of the first two calls are caught only by their NULL handles. It is foreign plumbing and is left out with the rest.
- The host-side staging work is left out: matrix allocation, the population loops (src/main.c:105-121), progress messages and exit codes. None of it computes anything the multiply depends on.
- MatMul.MatrixMultiply: elements are exact integers, not 32-bit floats. The contract states the exact sum in the source's order. The float rounding of `result += ...`, overflow to infinity, and infinity or NaN inputs are not modelled.
- MatMul.ZeroLeftOperand: holds for the source only when every element of B is finite. Infinities and NaN are not modelled, and in floats `0.0f * INFINITY` and `0.0f * NAN` are NaN.
- MatMul.RightIdentity: holds for the source only when every element of A is finite. An infinite A[i*N + k] gives `inf * 0 = NaN` in every other cell of row i.
- MatMul.LeftIdentity: holds for the source only when every element of B is finite. An infinite B[k*N + j] gives `0 * inf = NaN` in every other cell of column j.
- MatMul.MatrixMultiply: M, N and K are naturals. The source's `int` parameters could be negative. A negative M or N means no cell is written, and a negative K behaves like K = 0. Negative dimensions are not modelled.
- MatMul.MatrixMultiply: index arithmetic uses unbounded integers. The source computes `i*K + k` in 32-bit `int`, which overflows only for buffers beyond 2^31 elements; that case is not modelled.
- MatMul.MatrixMultiply: requires C to be a different array from A and from B. This exclusion is a modelling choice. The C signature does not forbid aliasing, and `matrixMultiply` is never called in src/main.c, so no call site settles the question. An aliased C would change the values read while the loops run.
