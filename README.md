# Matrix multiply and ordered matrix-chain reduction, modelled in Dafny

This project models two small C programs of a parallel-programming exercise
repository and proves what they compute.

- **Dense multiply** (`01-OmpFor-MatMul`) validates a matrix size against the
  `unsigned int` range. It fills two `size × size` row-major buffers with
  pseudo-random digits and multiplies them with a triple loop into a third
  buffer.
- **Tree reduce** (`04-OmpTask-TreeReduce`) builds `n` random matrices with
  entries −1 or +1. Each matrix is an array of row pointers. The program
  multiplies them in order, `((d0 · d1) · d2) · …`. Every product is freshly
  allocated and zero-initialised, and both operands are freed after each
  product.

Modules:

- `CTypes` (`c_types.dfy`): the LP64 ranges of `unsigned int` and `size_t`.
- `Matrices` (`matrices.dfy`): the specification shared by both programs.
  - Square matrices as `seq<seq<int>>`, and their product `Mul`, a dot product accumulated from 0.
  - The laws of `Mul`: associativity, identity, zero, and order mattering.
  - The index arithmetic of the row-major layout `element(i, j) = buffer[i * size + j]`.
- `DenseMultiply` (`dense_multiply.dfy`): the first program.
  - `overflows_uint` and `read_input`'s decisions, as functions.
  - `multiply` and `initialize_matrices`, as methods over `array<int>`. Each is proved against a function of its inputs.
- `TreeReduce` (`tree_reduce.dfy`): the second program.
  - Matrices are `array<array<int>>` there.
  - The allocator is modelled by a `Heap` object. It holds a ghost ledger `live` of the blocks that are allocated and not yet freed, and a ghost counter of products.
  - `free_matrix`, `cmul`, `mul`, `array_mul` and `rnd_matrix` are methods that update that ledger.
  - Also here:
    - a midpoint tree reduction of the chain, proved equal to the fold. The comment above `array_mul` asks for it to be parallelised, and the program's directory is named TreeReduce; this tree is one order-preserving reduction of that kind;
    - `read_input`'s checks, as a function.

## Model

| member | source | states |
|---|---|---|
| `DenseMultiply.GuardDefined` | 01-OmpFor-MatMul/src/matmul-parallel.c:57-58 | when the guard's two divisions are defined along its short-circuit path: never for size 0, and always for a positive size and a positive element size |
| `DenseMultiply.OverflowsUint` | 01-OmpFor-MatMul/src/matmul-parallel.c:56-59 | the guard as written, with C's short-circuit `\|\|` and flooring unsigned division, evaluated only where GuardDefined holds; an operand above UINT_MAX makes it true, and when it is false size ≤ UINT_MAX / size and element_size ≤ UINT_MAX |
| `DenseMultiply.OverflowsUintIff` | 01-OmpFor-MatMul/src/matmul-parallel.c:56-59 | for positive size and element size, every division the guard evaluates has a nonzero divisor, and the guard is true exactly when size·size·element_size > UINT_MAX |
| `DenseMultiply.OverflowsUintProductFits` | 01-OmpFor-MatMul/src/matmul-parallel.c:57-58 | once `size <= UINT_MAX / size` has been tested, size·size fits in `unsigned int`, so the last operand's product cannot wrap |
| `DenseMultiply.ReadInputAsWritten` | 01-OmpFor-MatMul/src/matmul-parallel.c:76-85 | read_input as written reaches a division by zero exactly when both scans succeed with size 0; whatever it accepts has a positive size and size·size·4 ≤ UINT_MAX |
| `DenseMultiply.ZeroSizeDividesByZero` | 01-OmpFor-MatMul/src/matmul-parallel.c:57 | the input file "0 7" makes the guard evaluate UINT_MAX / 0, while the corrected read_input rejects it as zero-sized |
| `DenseMultiply.ReadInput` | 01-OmpFor-MatMul/src/matmul-parallel.c:76-85 | corrected read_input: never divides by zero; it accepts exactly when both scans returned 1, the size is positive and size·size·sizeof(float) ≤ UINT_MAX, and then returns the scanned values unchanged; it reports an unreadable file exactly when a scan failed, and a zero size exactly when both scans succeeded with size 0 |
| `DenseMultiply.ReadInputAgreesAwayFromZero` | 01-OmpFor-MatMul/src/matmul-parallel.c:76-85 | for every nonzero size the corrected and the as-written read_input decide the same |
| `DenseMultiply.FlatDotIsDot` | 01-OmpFor-MatMul/src/matmul-parallel.c:37-40 | the kernel's running sum of a[i·size+k]·b[k·size+j] over the first k terms is the matrix dot product of row i of A with column j of B |
| `DenseMultiply.FlatProductIsMul` | 01-OmpFor-MatMul/src/matmul-parallel.c:33-41 | the buffer whose cell p holds the full sum for row p / size and column p % size, read as a matrix, is the matrix product of the operands |
| `DenseMultiply.CellSum` | 01-OmpFor-MatMul/src/matmul-parallel.c:37-40 | the innermost loop of multiply, starting from 0, ends with the kernel's full sum for cell (i, j); it reads the buffers only at indices below size·size |
| `DenseMultiply.Multiply` | 01-OmpFor-MatMul/src/matmul-parallel.c:29-44 | after multiply, every cell of c holds the dot product of its row of a and column of b, accumulated from 0, and c read as a matrix is Mul(a, b); every index used is below size·size; a and b are unchanged and only c is written |
| `DenseMultiply.MultiplyByIdentity` | 01-OmpFor-MatMul/src/matmul-parallel.c:37-41 | the row-major buffer that is 1 exactly where p / size == p % size reads as the identity matrix, and multiplying any buffer by it gives back that buffer's matrix |
| `DenseMultiply.MultiplyByZero` | 01-OmpFor-MatMul/src/matmul-parallel.c:37-41 | multiplying any buffer by the all-zero buffer gives the zero matrix |
| `DenseMultiply.InitializeMatrices` | 01-OmpFor-MatMul/src/matmul-parallel.c:13-26 | walking the cells in row-major order, a[p] is draw 2p mod 10, b[p] is draw 2p+1 mod 10 and c[p] is 0, for every cell; every element of a and b lies in [0, 9] |
| `DenseMultiply.DotBounds` | 01-OmpFor-MatMul/src/matmul-parallel.c:37-40 | with operands in [0, 9], every partial sum of the kernel lies in [0, 81·k], so it is an integer that a float holds exactly while below 2^24 |
| `DenseMultiply.AcceptedSizeIsExact` | 01-OmpFor-MatMul/src/matmul-parallel.c:81-84 | every size that passes the guard with sizeof(float) is at most 32767, so 81·size ≤ 2^24 and the kernel's partial sums on digit operands are exact in float; and size·size ≤ UINT_MAX, so no row-major index wraps in `unsigned` |
| `Matrices.RowMajorBound` | 01-OmpFor-MatMul/src/matmul-parallel.c:39-41 | for i, j < size the index i·size + j is below size·size |
| `Matrices.RowMajorDivMod` | 01-OmpFor-MatMul/src/matmul-parallel.c:41 | the index i·size + j determines (i, j): dividing by size gives i and the remainder is j, so distinct cells are distinct positions |
| `Matrices.AsMatrixInjective` | 01-OmpFor-MatMul/src/matmul-parallel.c:41 | two row-major buffers with the same matrix view are equal, because the view covers every position; so a statement about the result matrix fixes every cell of c |
| `Matrices.MulAssoc` | 04-OmpTask-TreeReduce/src/matmul-parallel.c:48-54 | the matrix product is associative for all matrices, so every grouping of an ordered chain gives the same product |
| `Matrices.MulNotCommutative` | 04-OmpTask-TreeReduce/src/matmul-parallel.c:53 | two 2-by-2 matrices whose products in the two orders differ, so the reduction must keep the order of data |
| `Matrices.MulIdentityLeft` | 04-OmpTask-TreeReduce/src/matmul-parallel.c:30-36 | the identity matrix times any square matrix gives that matrix |
| `Matrices.MulIdentityRight` | 04-OmpTask-TreeReduce/src/matmul-parallel.c:30-36 | any square matrix times the identity matrix gives that matrix |
| `Matrices.MulZeroRight` | 04-OmpTask-TreeReduce/src/matmul-parallel.c:30-36 | any matrix times the zero matrix gives the zero matrix |
| `TreeReduce.FreeMatrix` | 04-OmpTask-TreeReduce/src/matmul-parallel.c:13-18 | free_matrix releases from the ledger exactly the row arrays and the row-pointer array, and nothing else |
| `TreeReduce.AllocMatrix` | 04-OmpTask-TreeReduce/src/matmul-parallel.c:22-28 | the size row arrays and the pointer array are fresh, distinct, of length size, and zeroed when allocated with calloc; exactly they are added to the ledger, and none of them was already live |
| `TreeReduce.AccumulateRow` | 04-OmpTask-TreeReduce/src/matmul-parallel.c:31-35 | the inner loops of cmul for row i turn a zeroed row into row i of Mul(a, b); only that row is written |
| `TreeReduce.Cmul` | 04-OmpTask-TreeReduce/src/matmul-parallel.c:20-38 | cmul returns a fresh size-by-size matrix, distinct from a and b, that holds Mul(a, b); a and b are not written; the ledger gains exactly the result's blocks, and one product is counted |
| `TreeReduce.MulAndFree` | 04-OmpTask-TreeReduce/src/matmul-parallel.c:40-46 | mul returns a fresh matrix holding the product of the operands' values before the call; the ledger loses exactly the operands' blocks and gains the result's |
| `TreeReduce.ArrayMul` | 04-OmpTask-TreeReduce/src/matmul-parallel.c:49-57 | for n ≥ 1 disjoint, allocated matrices holding the values ms, array_mul returns the ordered left fold of ms; with n = 1 it is data[0] itself, otherwise a fresh matrix; exactly n − 1 products are computed; every input, every intermediate and data itself are freed, and only the result's blocks stay live |
| `TreeReduce.FoldStep` | 04-OmpTask-TreeReduce/src/matmul-parallel.c:53 | one pass of the loop frees the running product and data[i], and leaves live the fold of data[0..i] and the untouched inputs |
| `TreeReduce.FoldMulSplit` | 04-OmpTask-TreeReduce/src/matmul-parallel.c:48-54 | the left fold of a concatenation is the product of the folds of its two parts, wherever the chain is split |
| `TreeReduce.TreeMulIsFoldMul` | 04-OmpTask-TreeReduce/src/matmul-parallel.c:48-54 | reducing the chain by recursive midpoint splits, one order-preserving tree reduction that a parallelised array_mul could perform, gives exactly array_mul's left fold, for every nonempty chain |
| `TreeReduce.FoldMulExample` | 04-OmpTask-TreeReduce/src/matmul-parallel.c:51-54 | the 1-by-1 chain 2, 3, 4, 5 folds to 120 |
| `TreeReduce.SignOf` | 04-OmpTask-TreeReduce/src/matmul-parallel.c:70 | the element made from one rand() result r is −1 or 1, and it is 1 exactly when r is odd |
| `TreeReduce.Signs` | 04-OmpTask-TreeReduce/src/matmul-parallel.c:68-72 | the elements made from a stream of rand() results keep its length, and every one is −1 or 1 |
| `TreeReduce.FillRow` | 04-OmpTask-TreeReduce/src/matmul-parallel.c:69-71 | the inner loop of rnd_matrix consumes exactly size rand() results, and cell s of the row takes the sign of the s-th of them |
| `TreeReduce.RndMatrix` | 04-OmpTask-TreeReduce/src/matmul-parallel.c:59-75 | rnd_matrix returns a fresh size-by-size matrix whose row-major cells come from the first size·size rand() results, one each, in order; every element is −1 or 1; exactly its blocks join the ledger |
| `TreeReduce.ReadInput` | 04-OmpTask-TreeReduce/src/matmul-parallel.c:101-109 | read_input accepts exactly when fscanf stored both values and neither is 0, and then returns them unchanged; a failed scan is reported as unreadable; so on success array_mul's n ≥ 1 holds |

## Left out

- OpenMP in the dense multiply program: the `parallel` region and the `for simd` worksharing of each row's columns. The worksharing loops compute the same cells as the sequential loops modelled here. The tree-reduction program has no parallel construct to leave out: it only calls `omp_set_num_threads` and `omp_get_wtime`.
- Timing (`omp_get_wtime`), opening and reading the input file, `print_matrix` and all messages on the error stream. Only the decisions read_input takes on fscanf's return values and on the stored values are modelled.
- `rand` and `srand`. Their successive results are a `draws` parameter.
- Allocation failure and the `assert` aborts after `malloc`/`calloc`. Allocation always succeeds.
- `main` in both programs: the argument-count check, the exit codes, the allocation of `data` with the `rnd_matrix` calls that fill it, and the final `free_matrix` of the result. Only the functions it calls are modelled.
- DenseMultiply.Multiply: the buffers hold `float` in the source and `int` here, so rounding is not modelled. DotBounds and AcceptedSizeIsExact show that this costs nothing for the program's own inputs. With digit operands every partial sum is an integer of at most 81 · size. Every size that read_input accepts is at most 32767, so these sums stay below 2^24, where float is exact.
- DenseMultiply.Multiply, DenseMultiply.InitializeMatrices: the `unsigned` index arithmetic `i * size + k`, `k * size + j` and `i * size + j` is unbounded here, while in C it wraps once size exceeds 65536. For the program's own inputs this is exact. Every size read_input accepts is at most 32767, and AcceptedSizeIsExact shows that size·size ≤ UINT_MAX, so every index, being below size·size, fits in `unsigned`.
- TreeReduce.Cmul: C `int` overflow in `ret[i][j] += a[i][k] * b[k][j]` is not modelled; elements and sums are unbounded integers.
- DenseMultiply.CellSum, TreeReduce.AccumulateRow, TreeReduce.FoldStep, TreeReduce.FillRow: these split `multiply`, `cmul`, `array_mul` and `rnd_matrix` along their loops (the innermost loop of one cell, the two inner loops for one row, one pass of the outer loop, and the inner loop for one row). Mechanically the split only keeps each proof small; it adds no behaviour.
- TreeReduce.RndMatrix: uninitialised `malloc` rows are modelled as arrays of unknown contents. rnd_matrix overwrites every cell before it is read.
- `array_mul` is a sequential left fold, and the model follows the code. The comment above it asks for it to be parallelised, and the program's directory is named TreeReduce. TreeMul is one order-preserving tree reduction of that kind, and TreeMulIsFoldMul shows that it gives the same result as the fold.

## Findings

| source | as written | input that shows it | evidently intended | confidence | as-written member | corrected member |
|---|---|---|---|---|---|---|
| 01-OmpFor-MatMul/src/matmul-parallel.c:57 | read_input only checks that both scans succeeded before calling `overflows_uint(*size, sizeof(float))`, which evaluates `UINT_MAX / size` when size ≤ UINT_MAX; a size of 0 divides by zero, which is undefined behaviour in C | an input file containing `0 7` | reject a zero size before the guard runs, as the tree-reduction program's read_input does | not executed | `DenseMultiply.ReadInputAsWritten` | `DenseMultiply.ReadInput` |
