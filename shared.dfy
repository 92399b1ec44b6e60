/** The matrix entity every hop exchanges, with its constructor and its
    dimension check (shared/matrix.go). */
module Shared {
  import opened Wrappers

  /** `shared.Matrix`: the row and column counts travel beside the grid and
      nothing ties them together; `WellFormed` says when they agree. Entries are
      unbounded integers where Go has a 64-bit `int`. */
  datatype Matrix = Matrix(rows: int, cols: int, data: seq<seq<int>>)

  /** Go's zero value `shared.Matrix{}`, which every error path returns. */
  const Zero := Matrix(0, 0, [])

  const AddMismatch := "Matrix Addition not possible. Mismatch between dimensions"
  const MulMismatch := "Matrix Multiplication not possible. Mismatch between dimensions"

  /** `rows` grid rows, each holding exactly `cols` entries. */
  predicate WellFormed(m: Matrix) {
    && m.rows == |m.data|
    && 0 <= m.cols
    && forall i :: 0 <= i < |m.data| ==> |m.data[i]| == m.cols
  }

  /** The grid `m` after the statement `m.Data[i][j] = v`. */
  function WithEntry(m: Matrix, i: int, j: int, v: int): (m': Matrix)
    requires 0 <= i < |m.data| && 0 <= j < |m.data[i]|
    ensures m'.rows == m.rows && m'.cols == m.cols && |m'.data| == |m.data|
    ensures forall r :: 0 <= r < |m.data| ==> |m'.data[r]| == |m.data[r]|
    ensures forall r, c :: 0 <= r < |m.data| && 0 <= c < |m.data[r]| ==>
              m'.data[r][c] == if r == i && c == j then v else m.data[r][c]
  {
    m.(data := m.data[i := m.data[i][j := v]])
  }

  /** `NewMatrix(rows, cols)`: a zero-filled grid. `make` panics on a negative
      length, so `rows` must be non-negative, and so must `cols` as soon as one
      row is allocated. */
  method NewMatrix(rows: int, cols: int) returns (m: Matrix)
    requires 0 <= rows && (0 < rows ==> 0 <= cols)
    ensures m.rows == rows && m.cols == cols && |m.data| == rows
    ensures forall i :: 0 <= i < rows ==> |m.data[i]| == cols
    ensures forall i, j :: 0 <= i < rows && 0 <= j < cols ==> m.data[i][j] == 0
  {
    var data: seq<seq<int>> := seq(rows, _ => []);
    var i := 0;
    while i < rows
      invariant 0 <= i <= rows && |data| == rows
      invariant forall k :: 0 <= k < i ==> |data[k]| == cols
      invariant forall k, j :: 0 <= k < i && 0 <= j < cols ==> data[k][j] == 0
    {
      data := data[i := seq(cols, _ => 0)];
      i := i + 1;
    }
    m := Matrix(rows, cols, data);
  }

  /** `ValidateMatrices`: a dimension check selected by an exact, case-sensitive
      comparison of `operation` with "add" and with "multiply". */
  function ValidateMatrices(mat1: Matrix, mat2: Matrix, operation: string): (err: Option<string>)
    ensures operation == "add" ==>
              (err != None <==> mat1.rows != mat2.rows || mat1.cols != mat2.cols)
    ensures operation == "multiply" ==> (err != None <==> mat1.cols != mat2.rows)
    ensures operation != "add" && operation != "multiply" ==> err == None
    ensures err != None ==> err == Some(if operation == "add" then AddMismatch else MulMismatch)
  {
    if operation == "add" && (mat1.rows != mat2.rows || mat1.cols != mat2.cols) then
      Some(AddMismatch)
    else if operation == "multiply" && mat1.cols != mat2.rows then
      Some(MulMismatch)
    else
      None
  }

  /** The tag both kernels pass, "Add", matches neither case: whatever the
      dimensions, the check the kernels perform accepts. */
  lemma KernelTagNeverValidates(mat1: Matrix, mat2: Matrix)
    ensures ValidateMatrices(mat1, mat2, "Add") == None
    ensures mat1.rows != mat2.rows ==> ValidateMatrices(mat1, mat2, "add") == Some(AddMismatch)
  {
  }
}
