/** The records of matrix.h: a matrix stored in a flat row-major buffer, and
    the argument record of one work unit (one output cell). Also the
    row-major layout facts every other module relies on. */
module MatrixTypes {

  /** Largest value of the C `int` that holds dimensions, sizes and flat indices. */
  const INT_MAX: int := 0x7fff_ffff

  /** A matrix: its dimensions and its elements, row after row, in one flat buffer.
      `double` elements are modelled as `real`. */
  datatype Matrix = Matrix(rows: int, cols: int, data: seq<real>)

  /** The buffer holds exactly `rows * cols` elements, and that count fits in an `int`. */
  predicate Valid(m: Matrix) {
    0 <= m.rows && 0 <= m.cols && m.rows * m.cols <= INT_MAX && |m.data| == m.rows * m.cols
  }

  /** Row-major position of element (r, c) in a buffer with `cols` columns. */
  function Index(cols: int, r: int, c: int): int {
    r * cols + c
  }

  /** Element (r, c) of a well-formed matrix. */
  function Get(m: Matrix, r: int, c: int): real
    requires Valid(m) && 0 <= r < m.rows && 0 <= c < m.cols
  {
    IndexInBounds(m.rows, m.cols, r, c);
    m.data[Index(m.cols, r, c)]
  }

  /** The argument of one work unit: the output cell (row, col) it computes,
      its two operands (read-only, so held as values) and `result`, the
      position in the output buffer of the one cell it writes. */
  datatype ThreadArg = ThreadArg(row: int, col: int, a: Matrix, b: Matrix, result: int)

  /** What a work unit needs to run: well-formed operands whose inner
      dimensions agree, a cell inside the product, a non-negative target. */
  predicate ValidArg(u: ThreadArg) {
    && Valid(u.a) && Valid(u.b)
    && u.a.cols == u.b.rows
    && 0 <= u.row < u.a.rows
    && 0 <= u.col < u.b.cols
    && 0 <= u.result
  }

  /** Multiplying both sides of x <= y by the same natural number keeps the order. */
  lemma {:induction false} MulMonotone(x: int, y: int, k: nat)
    requires x <= y
    ensures x * k <= y * k
    decreases k
  {
    if k > 0 {
      MulMonotone(x, y, k - 1);
    }
  }

  /** Every in-range (r, c) has its position inside the buffer. */
  lemma {:induction false} IndexInBounds(rows: int, cols: int, r: int, c: int)
    requires 0 <= r < rows && 0 <= c < cols
    ensures 0 <= Index(cols, r, c) < rows * cols
  {
    MulMonotone(0, r, cols);
    MulMonotone(r + 1, rows, cols);
  }

  /** Division and remainder by `cols` recover the row and the column. */
  lemma {:induction false} IndexDivMod(cols: int, r: int, c: int)
    requires 0 <= r && 0 <= c < cols
    ensures Index(cols, r, c) / cols == r
    ensures Index(cols, r, c) % cols == c
  {
    var k := Index(cols, r, c);
    var q, m := k / cols, k % cols;
    assert (r - q) * cols == m - c;
    if r - q >= 1 {
      MulMonotone(1, r - q, cols);
    } else if r - q <= -1 {
      MulMonotone(r - q, -1, cols);
    }
  }

  /** Every position of a `rows * cols` buffer is the position of exactly the
      element (k / cols, k % cols), which is in range. */
  lemma {:induction false} IndexDecompose(rows: int, cols: int, k: int)
    requires 0 <= rows && 0 <= cols && 0 <= k < rows * cols
    ensures 0 < cols
    ensures 0 <= k / cols < rows && 0 <= k % cols < cols
    ensures Index(cols, k / cols, k % cols) == k
    ensures forall r, c :: 0 <= r < rows && 0 <= c < cols && Index(cols, r, c) == k ==>
      r == k / cols && c == k % cols
  {
    var q := k / cols;
    assert (rows - q) * cols == rows * cols - (k - k % cols);
    assert 0 < (rows - q) * cols;
    forall r, c | 0 <= r < rows && 0 <= c < cols && Index(cols, r, c) == k
      ensures r == k / cols && c == k % cols
    {
      IndexDivMod(cols, r, c);
    }
  }

  /** Distinct in-range (r, c) pairs have distinct positions: row-major
      indexing is injective, so together with IndexDecompose a bijection
      between [0, rows) x [0, cols) and [0, rows * cols). */
  lemma {:induction false} IndexInjective(cols: int, r1: int, c1: int, r2: int, c2: int)
    requires 0 <= r1 && 0 <= c1 < cols
    requires 0 <= r2 && 0 <= c2 < cols
    requires Index(cols, r1, c1) == Index(cols, r2, c2)
    ensures r1 == r2 && c1 == c2
  {
    IndexDivMod(cols, r1, c1);
    IndexDivMod(cols, r2, c2);
  }
}
