/** The input layout of file_reader.c over an already tokenised file: a
    header `m k n`, then the m*k elements of A, then the k*n elements of B,
    each matrix row-major. */
module FileReader {
  import opened MatrixTypes

  /** A tokenised matrix file: the three header integers and the numbers
      that follow them, in file order. */
  datatype MatrixFile = MatrixFile(m: int, k: int, n: int, values: seq<real>)

  /** Non-negative dimensions whose buffer sizes fit in an `int`, and enough
      numbers after the header for both matrices (extra numbers are never read). */
  predicate WellFormedFile(f: MatrixFile) {
    && 0 <= f.m && 0 <= f.k && 0 <= f.n
    && f.m * f.k <= INT_MAX && f.k * f.n <= INT_MAX
    && f.m * f.k + f.k * f.n <= |f.values|
  }

  /** The two operands the file describes: A is m x k and holds the first
      m*k numbers, B is k x n and holds the next k*n. */
  function Load(f: MatrixFile): (ab: (Matrix, Matrix))
    requires WellFormedFile(f)
    ensures Valid(ab.0) && Valid(ab.1)
    ensures ab.0.rows == f.m && ab.0.cols == f.k
    ensures ab.1.rows == f.k && ab.1.cols == f.n
    ensures ab.0.cols == ab.1.rows
    ensures ab.0.data + ab.1.data == f.values[..f.m * f.k + f.k * f.n]
  {
    var sizeA := f.m * f.k;
    (Matrix(f.m, f.k, f.values[..sizeA]),
     Matrix(f.k, f.n, f.values[sizeA..sizeA + f.k * f.n]))
  }

  /** The file that describes A and B: the reverse direction of the format. */
  function FileOf(a: Matrix, b: Matrix): MatrixFile {
    MatrixFile(a.rows, a.cols, b.cols, a.data + b.data)
  }

  /** Loading the file of two conforming matrices gives them back. */
  lemma LoadFileOf(a: Matrix, b: Matrix)
    requires Valid(a) && Valid(b) && a.cols == b.rows
    ensures WellFormedFile(FileOf(a, b))
    ensures Load(FileOf(a, b)) == (a, b)
  {
    var f := FileOf(a, b);
    assert f.values[..|a.data|] == a.data;
    assert f.values[|a.data|..|a.data| + |b.data|] == b.data;
  }

  /** A file with no trailing numbers is exactly the file of what it loads. */
  lemma FileOfLoad(f: MatrixFile)
    requires WellFormedFile(f) && |f.values| == f.m * f.k + f.k * f.n
    ensures FileOf(Load(f).0, Load(f).1) == f
  {
    assert f.values[..|f.values|] == f.values;
  }

  /** read_matrix: consumes the next rows*cols numbers from the cursor `pos`
      and stores the t-th of them at data[t]; returns the new cursor. */
  method ReadMatrix(values: seq<real>, pos: int, rows: int, cols: int, data: array<real>)
    returns (next: int)
    requires 0 <= pos && 0 <= rows && 0 <= cols && rows * cols <= INT_MAX
    requires data.Length == rows * cols && pos + rows * cols <= |values|
    modifies data
    ensures next == pos + rows * cols
    ensures data[..] == values[pos..next]
  {
    for i := 0 to rows * cols
      invariant data[..i] == values[pos..pos + i]
    {
      data[i] := values[pos + i];
    }
    next := pos + rows * cols;
  }

  /** init_matrices_from_file: reads the header, sizes A's buffer m*k and
      fills it, then sizes B's buffer k*n and fills it from where A ended. */
  method InitMatricesFromFile(f: MatrixFile) returns (a: Matrix, b: Matrix)
    requires WellFormedFile(f)
    ensures (a, b) == Load(f)
  {
    var m, k, n := f.m, f.k, f.n;
    var aData := new real[m * k];
    var pos := ReadMatrix(f.values, 0, m, k, aData);
    a := Matrix(m, k, aData[..]);
    var bData := new real[k * n];
    pos := ReadMatrix(f.values, pos, k, n, bData);
    b := Matrix(k, n, bData[..]);
  }

  /** The example file `2 2 2  1 2 3 4  5 6 7 8` loads as A = [[1, 2], [3, 4]]
      and B = [[5, 6], [7, 8]]. */
  lemma TwoByTwoFile()
    ensures WellFormedFile(MatrixFile(2, 2, 2, [1.0, 2.0, 3.0, 4.0, 5.0, 6.0, 7.0, 8.0]))
    ensures Load(MatrixFile(2, 2, 2, [1.0, 2.0, 3.0, 4.0, 5.0, 6.0, 7.0, 8.0]))
            == (Matrix(2, 2, [1.0, 2.0, 3.0, 4.0]), Matrix(2, 2, [5.0, 6.0, 7.0, 8.0]))
  {
    var values := [1.0, 2.0, 3.0, 4.0, 5.0, 6.0, 7.0, 8.0];
    assert values[..4] == [1.0, 2.0, 3.0, 4.0];
    assert values[4..8] == [5.0, 6.0, 7.0, 8.0];
  }
}
