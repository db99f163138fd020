/** The multiplier of matrix_multiplier.c: one work unit per output cell of
    C = A * B, each computing a dot product and writing only its own cell,
    dispatched over the output in row-major order and all finished (joined)
    before C is read. Threads are modelled by a schedule: the order in which
    the units happen to run. */
module Multiplier {
  import opened MatrixTypes
  import opened FileReader

  /** A and B can be multiplied and C's cell count fits in an `int`. */
  predicate Conform(a: Matrix, b: Matrix) {
    Valid(a) && Valid(b) && a.cols == b.rows && a.rows * b.cols <= INT_MAX
  }

  /** The first t terms of the dot product of row `row` of A with column
      `col` of B, accumulated left to right from 0 with i ascending. */
  function DotPrefix(a: Matrix, b: Matrix, row: int, col: int, t: int): real
    requires Valid(a) && Valid(b) && a.cols == b.rows
    requires 0 <= row < a.rows && 0 <= col < b.cols && 0 <= t <= a.cols
    decreases t
  {
    if t == 0 then 0.0
    else DotPrefix(a, b, row, col, t - 1) + Get(a, row, t - 1) * Get(b, t - 1, col)
  }

  /** The value of output cell (row, col): all A.cols terms. */
  function Dot(a: Matrix, b: Matrix, row: int, col: int): real
    requires Valid(a) && Valid(b) && a.cols == b.rows
    requires 0 <= row < a.rows && 0 <= col < b.cols
  {
    DotPrefix(a, b, row, col, a.cols)
  }

  /** The value of the output cell at flat position k of C. */
  function CellValue(a: Matrix, b: Matrix, k: int): real
    requires Conform(a, b) && 0 <= k < a.rows * b.cols
  {
    IndexDecompose(a.rows, b.cols, k);
    Dot(a, b, k / b.cols, k % b.cols)
  }

  /** p is the product of A and B: A.rows x B.cols, every cell its dot product. */
  predicate IsProductOf(a: Matrix, b: Matrix, p: Matrix)
    requires Valid(a) && Valid(b) && a.cols == b.rows
  {
    && Valid(p) && p.rows == a.rows && p.cols == b.cols
    && forall i, j :: 0 <= i < p.rows && 0 <= j < p.cols ==> Get(p, i, j) == Dot(a, b, i, j)
  }

  /** The reference product, built directly on the flat row-major buffer. */
  function Product(a: Matrix, b: Matrix): (p: Matrix)
    requires Conform(a, b)
    ensures IsProductOf(a, b, p)
  {
    var n := a.rows * b.cols;
    var p := Matrix(a.rows, b.cols, seq(n, k requires 0 <= k < n => CellValue(a, b, k)));
    assert forall i, j :: 0 <= i < p.rows && 0 <= j < p.cols ==> Get(p, i, j) == Dot(a, b, i, j) by {
      forall i, j | 0 <= i < p.rows && 0 <= j < p.cols
        ensures Get(p, i, j) == Dot(a, b, i, j)
      {
        IndexInBounds(p.rows, p.cols, i, j);
        IndexDivMod(p.cols, i, j);
      }
    }
    p
  }

  /** The product is unique: two matrices that are both the product of A and
      B are equal, so IsProductOf fully determines the result. */
  lemma {:induction false} ProductUnique(a: Matrix, b: Matrix, p: Matrix, q: Matrix)
    requires Valid(a) && Valid(b) && a.cols == b.rows
    requires IsProductOf(a, b, p) && IsProductOf(a, b, q)
    ensures p == q
  {
    forall k | 0 <= k < |p.data|
      ensures p.data[k] == q.data[k]
    {
      IndexDecompose(p.rows, p.cols, k);
      assert Get(p, k / p.cols, k % p.cols) == Get(q, k / p.cols, k % p.cols);
    }
  }

  // ---------------------------------------------------------------------
  // The work unit (compute_element)

  /** The summing loop of compute_element: every read is in range and the
      accumulated sum is the cell's dot product (0 when A.cols == 0). */
  method DotProduct(u: ThreadArg) returns (sum: real)
    requires ValidArg(u)
    ensures sum == Dot(u.a, u.b, u.row, u.col)
    ensures u.a.cols == 0 ==> sum == 0.0
  {
    sum := 0.0;
    for i := 0 to u.a.cols
      invariant sum == DotPrefix(u.a, u.b, u.row, u.col, i)
    {
      IndexInBounds(u.a.rows, u.a.cols, u.row, i);
      IndexInBounds(u.b.rows, u.b.cols, i, u.col);
      sum := sum + u.a.data[u.row * u.a.cols + i] * u.b.data[i * u.b.cols + u.col];
    }
  }

  /** compute_element: stores the dot product in the unit's one target cell
      and writes nothing else of C. */
  method ComputeElement(u: ThreadArg, c: array<real>)
    requires ValidArg(u) && u.result < c.Length
    modifies c
    ensures c[u.result] == Dot(u.a, u.b, u.row, u.col)
    ensures forall k :: 0 <= k < c.Length && k != u.result ==> c[k] == old(c[k])
  {
    var sum := DotProduct(u);
    c[u.result] := sum;
  }

  /** Position of A's element read at step i of unit u. */
  function ARead(u: ThreadArg, i: int): int {
    Index(u.a.cols, u.row, i)
  }

  /** Position of B's element read at step i of unit u. */
  function BRead(u: ThreadArg, i: int): int {
    Index(u.b.cols, i, u.col)
  }

  /** Every element compute_element reads lies inside its buffer. */
  predicate ReadsInBounds(u: ThreadArg) {
    forall i :: 0 <= i < u.a.cols ==>
      0 <= ARead(u, i) < |u.a.data| && 0 <= BRead(u, i) < |u.b.data|
  }

  /** With matching inner dimensions and an in-range cell, all reads are in bounds. */
  lemma {:induction false} ConformingReadsInBounds(u: ThreadArg)
    requires ValidArg(u)
    ensures ReadsInBounds(u)
  {
    forall i | 0 <= i < u.a.cols
      ensures 0 <= ARead(u, i) < |u.a.data| && 0 <= BRead(u, i) < |u.b.data|
    {
      IndexInBounds(u.a.rows, u.a.cols, u.row, i);
      IndexInBounds(u.b.rows, u.b.cols, i, u.col);
    }
  }

  /** With fewer columns in A than rows in B, every read still stays inside
      both buffers, although the sum is then not a cell of A * B: staying in
      bounds does not imply that the inner dimensions agree. */
  lemma {:induction false} UnderfullReadsInBounds(u: ThreadArg)
    requires Valid(u.a) && Valid(u.b)
    requires 0 <= u.row < u.a.rows && 0 <= u.col < u.b.cols
    requires u.a.cols < u.b.rows
    ensures ReadsInBounds(u)
  {
    forall i | 0 <= i < u.a.cols
      ensures 0 <= ARead(u, i) < |u.a.data| && 0 <= BRead(u, i) < |u.b.data|
    {
      IndexInBounds(u.a.rows, u.a.cols, u.row, i);
      IndexInBounds(u.b.rows, u.b.cols, i, u.col);
    }
  }

  /** With conforming, non-empty operands, a cell outside the product makes
      some read fall outside a buffer: a row or column below 0 on the first
      read, a row past A's last on the first read of A, a column past B's
      last on the last read of B. */
  lemma {:induction false} IndexOutOfRangeReadsOutOfBounds(u: ThreadArg)
    requires Valid(u.a) && Valid(u.b) && u.a.cols == u.b.rows > 0
    requires !(0 <= u.row < u.a.rows && 0 <= u.col < u.b.cols)
    ensures !ReadsInBounds(u)
  {
    if u.row >= u.a.rows {
      RowOutOfRangeReadsOutOfBounds(u);
    } else if u.row < 0 {
      assert ARead(u, 0) < 0;
    } else if u.col < 0 {
      assert BRead(u, 0) < 0;
    } else {
      assert BRead(u, u.b.rows - 1) >= |u.b.data|;
    }
  }

  /** compute_element does not check A.cols == B.rows: when A has more
      columns than B has rows, step i = B.rows reads past the end of B. */
  lemma {:induction false} MismatchReadsOutOfBounds(u: ThreadArg)
    requires Valid(u.a) && Valid(u.b) && 0 <= u.col < u.b.cols
    requires u.a.cols > u.b.rows
    ensures !ReadsInBounds(u)
  {
    assert BRead(u, u.b.rows) >= |u.b.data|;
  }

  /** Likewise an out-of-range row makes the first read of A fall past its end. */
  lemma {:induction false} RowOutOfRangeReadsOutOfBounds(u: ThreadArg)
    requires Valid(u.a) && Valid(u.b) && u.a.cols > 0 && u.row >= u.a.rows
    ensures !ReadsInBounds(u)
  {
    MulMonotone(u.a.rows, u.row, u.a.cols);
    assert ARead(u, 0) >= |u.a.data|;
  }

  // ---------------------------------------------------------------------
  // Dispatch and join (multiply_matrices)

  /** The work unit that owns flat position k of C: cell (k / cols, k % cols). */
  function UnitFor(a: Matrix, b: Matrix, k: int): ThreadArg
    requires 0 < b.cols
  {
    ThreadArg(k / b.cols, k % b.cols, a, b, k)
  }

  /** The unit dispatched for (i, j) is the owner of i*cols + j, and of no
      other position: each cell is the write target of exactly one unit. */
  lemma {:induction false} UnitOwnsItsCell(a: Matrix, b: Matrix, i: int, j: int, k: int)
    requires 0 <= i && 0 <= j < b.cols && 0 <= k
    ensures (UnitFor(a, b, k) == ThreadArg(i, j, a, b, Index(b.cols, i, j))) <==> k == Index(b.cols, i, j)
  {
    IndexDivMod(b.cols, i, j);
  }

  /** A possible execution order of the n work units: each unit, named by
      its flat index, runs exactly once. */
  predicate IsSchedule(schedule: seq<int>, n: int) {
    && |schedule| == n
    && (forall t :: 0 <= t < |schedule| ==> 0 <= schedule[t] < n)
    && (forall t, s :: 0 <= t < s < |schedule| ==> schedule[t] != schedule[s])
    && (forall k :: 0 <= k < n ==> k in schedule)
  }

  /** multiply_matrices: builds one argument per output cell in row-major
      order, each aimed at its own cell, then runs the units in the order
      `schedule` gives (the join ends when all have run). Whatever the
      order, every cell of C ends up holding its dot product. */
  method MultiplyMatrices(a: Matrix, b: Matrix, cRows: int, cCols: int, cData: array<real>, schedule: seq<int>)
    requires Conform(a, b) && cRows == a.rows && cCols == b.cols
    requires cData.Length == cRows * cCols
    requires IsSchedule(schedule, cRows * cCols)
    modifies cData
    ensures cData[..] == Product(a, b).data
  {
    var n := cRows * cCols;
    var args := new ThreadArg[n];
    ghost var done := 0;
    for i := 0 to cRows
      modifies args
      invariant done == i * cCols <= n
      invariant forall k :: 0 <= k < done ==> args[k] == UnitFor(a, b, k)
    {
      for j := 0 to cCols
        modifies args
        invariant done + j <= n
        invariant forall k :: 0 <= k < done + j ==> args[k] == UnitFor(a, b, k)
      {
        var index := i * cCols + j;
        IndexInBounds(cRows, cCols, i, j);
        UnitOwnsItsCell(a, b, i, j, index);
        args[index] := ThreadArg(i, j, a, b, index);
      }
      MulMonotone(i + 1, cRows, cCols);
      done := done + cCols;
    }

    for t := 0 to n
      modifies cData
      invariant forall k :: 0 <= k < n ==>
        cData[k] == if k in schedule[..t] then CellValue(a, b, k) else old(cData[k])
    {
      var s := schedule[t];
      IndexDecompose(cRows, cCols, s);
      ComputeElement(args[s], cData);
      assert schedule[..t + 1] == schedule[..t] + [s];
    }
    assert schedule[..n] == schedule;
  }

  /** The driver's part (main): C gets A.rows rows and B.cols columns and
      a buffer of that many cells, and multiply_matrices fills it. */
  method Multiply(a: Matrix, b: Matrix, schedule: seq<int>) returns (c: Matrix)
    requires Conform(a, b) && IsSchedule(schedule, a.rows * b.cols)
    ensures IsProductOf(a, b, c)
    ensures c == Product(a, b)
  {
    var rows, cols := a.rows, b.cols;
    var data := new real[rows * cols];
    MultiplyMatrices(a, b, rows, cols, data, schedule);
    c := Matrix(rows, cols, data[..]);
  }

  /** The driver's whole computation: load A and B from the file, then
      multiply. Loaded operands always meet the multiplier's requirement. */
  method MultiplyFile(f: MatrixFile, schedule: seq<int>) returns (c: Matrix)
    requires WellFormedFile(f) && f.m * f.n <= INT_MAX && IsSchedule(schedule, f.m * f.n)
    ensures IsProductOf(Load(f).0, Load(f).1, c)
  {
    var a, b := InitMatricesFromFile(f);
    c := Multiply(a, b, schedule);
  }

  // ---------------------------------------------------------------------
  // Properties of the product

  /** The n x n identity matrix. */
  function Identity(n: int): (id: Matrix)
    requires 0 <= n && n * n <= INT_MAX
    ensures Valid(id) && id.rows == n && id.cols == n
    ensures forall i, j :: 0 <= i < n && 0 <= j < n ==> Get(id, i, j) == if i == j then 1.0 else 0.0
  {
    var id := Matrix(n, n, seq(n * n, k requires 0 <= k < n * n => if k / n == k % n then 1.0 else 0.0));
    assert forall i, j :: 0 <= i < n && 0 <= j < n ==> Get(id, i, j) == if i == j then 1.0 else 0.0 by {
      forall i, j | 0 <= i < n && 0 <= j < n
        ensures Get(id, i, j) == if i == j then 1.0 else 0.0
      {
        IndexInBounds(n, n, i, j);
        IndexDivMod(n, i, j);
      }
    }
    id
  }

  /** Against the identity, a prefix of row `row`'s dot product with column
      `col` picks out A[row][col] once the prefix has passed `col`, and is 0 before. */
  lemma {:induction false} DotPrefixRightIdentity(a: Matrix, row: int, col: int, t: int)
    requires Valid(a) && a.cols * a.cols <= INT_MAX
    requires 0 <= row < a.rows && 0 <= col < a.cols && 0 <= t <= a.cols
    ensures DotPrefix(a, Identity(a.cols), row, col, t) == if col < t then Get(a, row, col) else 0.0
    decreases t
  {
    if t > 0 {
      DotPrefixRightIdentity(a, row, col, t - 1);
    }
  }

  /** Likewise from the left: the identity's row `row` picks out A[row][col]
      once the prefix has passed `row`, and the prefix is 0 before. */
  lemma {:induction false} DotPrefixLeftIdentity(a: Matrix, row: int, col: int, t: int)
    requires Valid(a) && a.rows * a.rows <= INT_MAX
    requires 0 <= row < a.rows && 0 <= col < a.cols && 0 <= t <= a.rows
    ensures DotPrefix(Identity(a.rows), a, row, col, t) == if row < t then Get(a, row, col) else 0.0
    decreases t
  {
    if t > 0 {
      DotPrefixLeftIdentity(a, row, col, t - 1);
    }
  }

  /** A * I == A. */
  lemma {:induction false} RightIdentity(a: Matrix)
    requires Valid(a) && a.cols * a.cols <= INT_MAX
    ensures Conform(a, Identity(a.cols))
    ensures Product(a, Identity(a.cols)) == a
  {
    var id := Identity(a.cols);
    assert IsProductOf(a, id, a) by {
      forall i, j | 0 <= i < a.rows && 0 <= j < a.cols
        ensures Get(a, i, j) == Dot(a, id, i, j)
      {
        DotPrefixRightIdentity(a, i, j, a.cols);
      }
    }
    ProductUnique(a, id, Product(a, id), a);
  }

  /** I * A == A. */
  lemma {:induction false} LeftIdentity(a: Matrix)
    requires Valid(a) && a.rows * a.rows <= INT_MAX
    ensures Conform(Identity(a.rows), a)
    ensures Product(Identity(a.rows), a) == a
  {
    var id := Identity(a.rows);
    assert IsProductOf(id, a, a) by {
      forall i, j | 0 <= i < a.rows && 0 <= j < a.cols
        ensures Get(a, i, j) == Dot(id, a, i, j)
      {
        DotPrefixLeftIdentity(a, i, j, a.rows);
      }
    }
    ProductUnique(id, a, Product(id, a), a);
  }

  /** A dot product over an inner dimension of 2 has two terms. */
  lemma DotOfTwo(a: Matrix, b: Matrix, row: int, col: int)
    requires Valid(a) && Valid(b) && a.cols == b.rows == 2
    requires 0 <= row < a.rows && 0 <= col < b.cols
    ensures Dot(a, b, row, col) == Get(a, row, 0) * Get(b, 0, col) + Get(a, row, 1) * Get(b, 1, col)
  {
  }

  /** The operands [[1, 2], [3, 4]] and [[5, 6], [7, 8]] give the cells
      19, 22 (first row) and 43, 50 (second row). */
  lemma TwoByTwo()
    ensures var a, b := Matrix(2, 2, [1.0, 2.0, 3.0, 4.0]), Matrix(2, 2, [5.0, 6.0, 7.0, 8.0]);
      && Dot(a, b, 0, 0) == 19.0 && Dot(a, b, 0, 1) == 22.0
      && Dot(a, b, 1, 0) == 43.0 && Dot(a, b, 1, 1) == 50.0
  {
    var a, b := Matrix(2, 2, [1.0, 2.0, 3.0, 4.0]), Matrix(2, 2, [5.0, 6.0, 7.0, 8.0]);
    DotOfTwo(a, b, 0, 0);
    DotOfTwo(a, b, 0, 1);
    DotOfTwo(a, b, 1, 0);
    DotOfTwo(a, b, 1, 1);
  }

  /** The product of the worked example is [[19, 22], [43, 50]]. */
  lemma TwoByTwoProduct()
    ensures Product(Matrix(2, 2, [1.0, 2.0, 3.0, 4.0]), Matrix(2, 2, [5.0, 6.0, 7.0, 8.0]))
            == Matrix(2, 2, [19.0, 22.0, 43.0, 50.0])
  {
    var a, b := Matrix(2, 2, [1.0, 2.0, 3.0, 4.0]), Matrix(2, 2, [5.0, 6.0, 7.0, 8.0]);
    var c := Matrix(2, 2, [19.0, 22.0, 43.0, 50.0]);
    TwoByTwo();
    forall i, j | 0 <= i < 2 && 0 <= j < 2
      ensures Get(c, i, j) == Dot(a, b, i, j)
    {
      assert i == 0 || i == 1;
      assert j == 0 || j == 1;
    }
    ProductUnique(a, b, Product(a, b), c);
  }

  /** 1 x 1 operands [[3]] and [[4]] give [[12]]. */
  lemma OneByOne()
    ensures Product(Matrix(1, 1, [3.0]), Matrix(1, 1, [4.0])) == Matrix(1, 1, [12.0])
  {
    var a, b := Matrix(1, 1, [3.0]), Matrix(1, 1, [4.0]);
    assert Dot(a, b, 0, 0) == 12.0;
    ProductUnique(a, b, Product(a, b), Matrix(1, 1, [12.0]));
  }
}
