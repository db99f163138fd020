# Threaded matrix multiplier: a Dafny model

This project models the core of a small C program. The program multiplies two
dense matrices, C = A · B, with one POSIX thread per output cell. It reads A and
B from a text file laid out as `m k n`, then the m·k elements of A, then the
k·n elements of B, each matrix row-major.

Three modules follow the three source files:

- `MatrixTypes` (matrix.h). `Matrix` is a record of `rows`, `cols` and a flat
  row-major `data` buffer. `Valid` requires `|data| == rows * cols`, and that
  count must fit in a C `int`. `ThreadArg` is one work unit's argument: the
  cell (`row`, `col`), the read-only operands `a` and `b` (held as values,
  because the C pointers are `const`), and `result`, the flat position of the
  single cell of C it writes. The module also proves the row-major indexing
  facts. `r * cols + c` is in range; it is injective; `/` and `%` by `cols`
  invert it. Together these make it a bijection between
  [0, rows) × [0, cols) and [0, rows · cols).
- `FileReader` (file_reader.c). `ReadMatrix` is `read_matrix`. It takes a
  cursor into the number stream, stores the t-th number it consumes at
  `data[t]`, and returns the cursor moved on by `rows * cols`.
  `InitMatricesFromFile` sizes A as m × k and B as k × n, then fills B from
  where A stopped. Its result equals the specification function `Load`. `Load`
  is paired with `FileOf`, the inverse direction of the format, by a round trip
  proved in both directions. `Load` also states that B.rows == A.cols always
  holds. The multiplier needs that but never checks it.
- `Multiplier` (matrix_multiplier.c):
  - `DotProduct` is the summing loop of `compute_element`. It starts from 0 and
    adds `A[row][i] * B[i][col]` for i rising from 0. Its result is the
    specification `Dot`. `DotPrefix` makes the left-to-right accumulation
    order explicit.
  - `ComputeElement` stores that sum in the unit's one target cell and leaves
    every other cell of C unchanged.
  - `MultiplyMatrices` is `multiply_matrices`. Its nested loops build the
    argument array in row-major order, each unit aimed at `i * cols + j`. It
    then runs the units in the order given by a `schedule`: any permutation of
    the unit indices, standing for the order the threads happen to run. When
    the last unit has run (the join), C's buffer equals the reference
    `Product`, for every schedule.
  - `Multiply` is the part of `main` that sizes C as A.rows × B.cols and calls
    the multiplier. `MultiplyFile` is the whole load-then-multiply run.
  - The product is characterised by `IsProductOf`: its shape, and every cell
    equal to its dot product. `ProductUnique` shows this determines the result.
  - Further lemmas: the identity matrix is neutral on both sides; the two
    worked examples, [[1,2],[3,4]]·[[5,6],[7,8]] = [[19,22],[43,50]] and
    [[3]]·[[4]] = [[12]].

Modelling choices:

- Doubles are modelled as `real`. The accumulation order stays explicit, but
  rounding is not modelled.
- Each thread reads only A and B, which never change, and writes only its own
  cell, and it does that write last. So every interleaving of the threads ends
  in the same state as some sequential order of whole units. A `schedule`
  parameter ranging over all such orders covers every run of the source.
- In the source, a thread may start as soon as its own argument is filled in.
  In the model, all arguments are built before any unit runs. This changes
  nothing, because building an argument never touches C.
- ThreadArg's `result` pointer becomes an index into C's buffer.
- The model follows the code as written:
  - The code never checks `A.cols == B.rows`, so the model makes it a
    precondition, not a reported error. `MismatchReadsOutOfBounds` shows the
    precondition is needed: with more columns in A than rows in B,
    `compute_element` reads past the end of B.
  - Whether every read is in bounds is not exactly the same as
    `A.cols == B.rows`. When A has fewer columns than B has rows, every read
    stays inside B (`UnderfullReadsInBounds`), yet the result is not A · B.
    So the model proves the directions that do hold:
    `ConformingReadsInBounds`, that lemma, and the out-of-bounds lemmas. For
    conforming operands with a non-zero inner dimension,
    `ConformingReadsInBounds` and `IndexOutOfRangeReadsOutOfBounds` together
    say that every read is in bounds exactly when the cell lies inside C.
  - With an inner dimension of 0, the buffers for A and B are requested with
    `malloc(0)` (file_reader.c:49, 63). Whether that returns NULL is left to
    the C library. Where it returns a usable pointer, the code goes on and
    fills C with zeros, and the model does the same (`DotProduct`'s second
    ensures). Where it returns NULL, the allocation-failure exit runs
    (file_reader.c:51-56, 65-71), which is not modelled.
  - The code runs one thread per cell, with no worker pool or chunking.

## Model

| member | source | states |
|---|---|---|
| `MatrixTypes.IndexInBounds` | matrix.h:12 | element (r, c) of a rows × cols matrix sits at `r*cols + c`, which lies in [0, rows·cols) |
| `MatrixTypes.IndexDivMod` | matrix.h:12 | the row and column are recovered from a flat index by `/ cols` and `% cols` |
| `MatrixTypes.IndexDecompose` | matrix.h:12 | every flat index k below rows·cols is the position of the in-range element (k / cols, k % cols), and of no other in-range element |
| `MatrixTypes.IndexInjective` | matrix_multiplier.c:44-48 | distinct (i, j) pairs of the dispatch loops get distinct indices `i*C.cols + j` |
| `FileReader.ReadMatrix` | file_reader.c:15-21 | consumes exactly rows·cols numbers from the cursor and stores the t-th of them at `data[t]`, in order |
| `FileReader.Load` | file_reader.c:43-73 | A is m × k and B is k × n, taken from the header; A.cols == B.rows; A's data then B's data are exactly the first m·k + k·n numbers after the header |
| `FileReader.InitMatricesFromFile` | file_reader.c:33-76 | sizes A's and B's buffers rows·cols, fills A from the start of the numbers and B from where A ended, giving `Load`'s operands |
| `FileReader.LoadFileOf` | file_reader.c:44-73 | writing two conforming matrices in the file format and loading the file gives them back |
| `FileReader.FileOfLoad` | file_reader.c:44-73 | a file with no trailing numbers is exactly the file of the two matrices it loads |
| `Multiplier.DotProduct` | matrix_multiplier.c:20-24 | the accumulated sum is Σ A[row][i]·B[i][col] over i ascending from 0, and 0 when A.cols == 0 |
| `Multiplier.ComputeElement` | matrix_multiplier.c:17-27 | the unit's target cell gets its dot product and no other cell of C changes; A and B are values and cannot change |
| `Multiplier.ConformingReadsInBounds` | matrix_multiplier.c:21-23 | when A.cols == B.rows, row < A.rows and col < B.cols, every element compute_element reads lies inside its buffer |
| `Multiplier.MismatchReadsOutOfBounds` | matrix_multiplier.c:21-23 | when A.cols > B.rows, compute_element reads past the end of B, so its unchecked precondition is needed |
| `Multiplier.UnderfullReadsInBounds` | matrix_multiplier.c:21-23 | when A.cols < B.rows, with row and col in range, every read still lies inside its buffer, so staying in bounds does not imply conforming operands |
| `Multiplier.IndexOutOfRangeReadsOutOfBounds` | matrix_multiplier.c:21-23 | with A.cols == B.rows > 0, a cell outside A.rows × B.cols makes some read fall outside its buffer: a negative row or column on the first read, a column past B's last on the last read of B |
| `Multiplier.RowOutOfRangeReadsOutOfBounds` | matrix_multiplier.c:21-23 | a row outside A makes the first read of A fall past its end |
| `Multiplier.UnitOwnsItsCell` | matrix_multiplier.c:48-49 | the unit built for (i, j) is aimed at `i*cols + j`, and a cell's owning unit is that one and no other |
| `Multiplier.MultiplyMatrices` | matrix_multiplier.c:39-62 | after every unit has run once, in any order, every cell of C holds its dot product, whatever C held before |
| `Multiplier.Product` | matrix_multiplier.c:17-62 | the reference product is A.rows × B.cols and each cell (i, j) is the dot product of row i of A with column j of B |
| `Multiplier.ProductUnique` | matrix_multiplier.c:17-62 | two matrices that are both the product of A and B are equal |
| `Multiplier.Multiply` | matrix_multiplier.c:80-94 | C gets A.rows rows and B.cols columns, and after the multiplication it is the product, for every thread schedule |
| `Multiplier.MultiplyFile` | matrix_multiplier.c:78-94 | operands loaded from a file always meet the multiplier's requirement, and the result is their product |
| `Multiplier.RightIdentity` | matrix_multiplier.c:20-25 | A · I = A |
| `Multiplier.LeftIdentity` | matrix_multiplier.c:20-25 | I · A = A |
| `Multiplier.TwoByTwo` | matrix_multiplier.c:20-25 | the four cells computed for [[1,2],[3,4]] · [[5,6],[7,8]] are 19, 22, 43 and 50 |
| `Multiplier.TwoByTwoProduct` | matrix_multiplier.c:17-62 | [[1,2],[3,4]] · [[5,6],[7,8]] = [[19,22],[43,50]] |
| `FileReader.TwoByTwoFile` | file_reader.c:43-73 | the file `2 2 2 1 2 3 4 5 6 7 8` loads as [[1,2],[3,4]] and [[5,6],[7,8]] |
| `Multiplier.OneByOne` | matrix_multiplier.c:17-62 | [[3]] · [[4]] = [[12]] |

## Left out

- Threads: `pthread_create`, `pthread_exit`, `pthread_join` and the `threads` array (matrix_multiplier.c:41, 50, 58-61) are not modelled as such. Running the units in a chosen `schedule` stands in for them; the join is the end of that run.
- Thread-creation failure (matrix_multiplier.c:50-54): an operating-system resource failure that ends the process.
- Stack exhaustion: `threads` and `args` (matrix_multiplier.c:41-42) are arrays on the stack with C.rows·C.cols entries each. For a large C (1000 × 1000 is tens of megabytes) the process runs out of stack when `multiply_matrices` is entered, before any thread exists. The model succeeds for every A.rows·B.cols up to `INT_MAX`.
- Floating point: doubles are exact reals, so rounding is not modelled; the accumulation order is.
- File I/O: `fopen`, `fclose` and `fscanf` parsing. The header's three integers and the numbers after it arrive already tokenised as a `MatrixFile`. Failing to open the file (file_reader.c:35-40) is not modelled.
- Truncated or malformed input: `fscanf`'s return value is ignored, so the source gives it no defined behaviour. `WellFormedFile` requires enough numbers. Numbers beyond the first m·k + k·n are accepted and never read, as in the source.
- Negative header dimensions: a header such as `-1 2 3` parses, and `WellFormedFile` excludes it. In the source, a negative product m·k or k·n becomes a very large `size_t` in the `malloc` call (file_reader.c:49, 63), the allocation fails and the exit at file_reader.c:51-56 or 65-71 runs. Where a product is 0, the outcome depends on `malloc(0)`, as for an inner dimension of 0. C's buffer is sized m·n (matrix_multiplier.c:82), and a negative m·n ends in the allocation-failure exit at matrix_multiplier.c:85-91. That leaves m < 0, n < 0 and k < 0 (for example m = k = n = −1), where all three products are positive. Then C's row count is negative, the dispatch loops (matrix_multiplier.c:44-46) create no thread, and the join loop (matrix_multiplier.c:58-61) joins m·n threads that were never created, which is undefined behaviour.
- Memory management: `malloc` and `free`, and the allocation-failure exits (file_reader.c:51-56, 65-71; matrix_multiplier.c:85-91). Buffers are fresh Dafny arrays.
- The rest of `main`: the argument-count check (matrix_multiplier.c:69-73), the printing with `%.5f`, and the final `free`s.
- C `int` overflow: dimension products, buffer sizes and flat indices are required to stay at most `INT_MAX` (`Valid`, `WellFormedFile`, `Conform`), so wrap-around never arises in the model.
