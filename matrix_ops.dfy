/** The worker's three kernels (worker/matrix_ops.go). Each allocates a fresh
    grid with `NewMatrix` and fills it cell by cell. The add and multiply
    kernels call `ValidateMatrices` with the tag "Add", which the check never
    matches, so no dimension check ever fires; reading only cells that exist is
    therefore the caller's obligation (`AddSafe`, `MulSafe`). */
module MatrixOps {
  import opened Wrappers
  import opened Shared

  const EmptyMatrixError := "matrix is empty"

  /** `MatrixAdd` reads `mat2.Data[i][j]` for every cell of `mat1`. */
  predicate AddSafe(a: Matrix, b: Matrix) {
    && WellFormed(a) && WellFormed(b)
    && a.rows <= b.rows
    && (0 < a.rows ==> a.cols <= b.cols)
  }

  /** `MatrixMul` reads `mat2.Data[k][j]` for `k < mat1.Cols`, `j < mat2.Cols`
      whenever the result has a cell at all. */
  predicate MulSafe(a: Matrix, b: Matrix) {
    && WellFormed(a) && WellFormed(b)
    && (0 < a.rows && 0 < b.cols ==> a.cols <= b.rows)
  }

  /** `s` is the elementwise sum of `a` and `b`, shaped like `a`. */
  ghost predicate IsSum(a: Matrix, b: Matrix, s: Matrix)
    requires AddSafe(a, b)
  {
    && WellFormed(s) && s.rows == a.rows && s.cols == a.cols
    && forall i, j :: 0 <= i < a.rows && 0 <= j < a.cols ==>
         s.data[i][j] == a.data[i][j] + b.data[i][j]
  }

  /** The sum over `k < n` of `a[i][k] * b[k][j]`. */
  ghost function Dot(a: Matrix, b: Matrix, i: int, j: int, n: int): (r: int)
    requires WellFormed(a) && WellFormed(b)
    requires 0 <= i < a.rows && 0 <= j < b.cols && 0 <= n <= a.cols && n <= b.rows
    decreases n
  {
    if n == 0 then 0 else Dot(a, b, i, j, n - 1) + a.data[i][n - 1] * b.data[n - 1][j]
  }

  /** `p` is the `a.rows` by `b.cols` product that sums over `k < a.cols`. */
  ghost predicate IsProduct(a: Matrix, b: Matrix, p: Matrix)
    requires MulSafe(a, b)
  {
    && WellFormed(p) && p.rows == a.rows && p.cols == b.cols
    && forall i, j :: 0 <= i < a.rows && 0 <= j < b.cols ==> p.data[i][j] == Dot(a, b, i, j, a.cols)
  }

  /** `t` is the `a.cols` by `a.rows` matrix with `t[i][j] == a[j][i]`. */
  ghost predicate IsTranspose(a: Matrix, t: Matrix)
    requires WellFormed(a)
  {
    && WellFormed(t) && t.rows == a.cols && t.cols == a.rows
    && forall i, j :: 0 <= i < a.cols && 0 <= j < a.rows ==> t.data[i][j] == a.data[j][i]
  }

  /** `MatrixAdd`: never an error, and the elementwise sum. */
  method MatrixAdd(mat1: Matrix, mat2: Matrix) returns (sum: Matrix, err: Option<string>)
    requires AddSafe(mat1, mat2)
    ensures err == None
    ensures IsSum(mat1, mat2, sum)
  {
    err := ValidateMatrices(mat1, mat2, "Add");
    if err != None {
      return Zero, err;
    }
    sum := NewMatrix(mat1.rows, mat1.cols);
    var i := 0;
    while i < mat1.rows
      invariant 0 <= i <= mat1.rows
      invariant WellFormed(sum) && sum.rows == mat1.rows && sum.cols == mat1.cols
      invariant forall r, c :: 0 <= r < i && 0 <= c < mat1.cols ==>
                  sum.data[r][c] == mat1.data[r][c] + mat2.data[r][c]
    {
      var j := 0;
      while j < mat1.cols
        invariant 0 <= j <= mat1.cols
        invariant WellFormed(sum) && sum.rows == mat1.rows && sum.cols == mat1.cols
        invariant forall r, c :: 0 <= r < i && 0 <= c < mat1.cols ==>
                    sum.data[r][c] == mat1.data[r][c] + mat2.data[r][c]
        invariant forall c :: 0 <= c < j ==> sum.data[i][c] == mat1.data[i][c] + mat2.data[i][c]
      {
        sum := WithEntry(sum, i, j, mat1.data[i][j] + mat2.data[i][j]);
        j := j + 1;
      }
      i := i + 1;
    }
  }

  /** `MatrixMul`: never an error, and the product summed over `k < mat1.Cols`. */
  method MatrixMul(mat1: Matrix, mat2: Matrix) returns (result: Matrix, err: Option<string>)
    requires MulSafe(mat1, mat2)
    ensures err == None
    ensures IsProduct(mat1, mat2, result)
  {
    err := ValidateMatrices(mat1, mat2, "Add");
    if err != None {
      return Zero, err;
    }
    result := NewMatrix(mat1.rows, mat2.cols);
    var i := 0;
    while i < result.rows
      invariant 0 <= i <= mat1.rows
      invariant WellFormed(result) && result.rows == mat1.rows && result.cols == mat2.cols
      invariant forall r, c :: 0 <= r < i && 0 <= c < mat2.cols ==>
                  result.data[r][c] == Dot(mat1, mat2, r, c, mat1.cols)
      invariant forall r, c :: i <= r < mat1.rows && 0 <= c < mat2.cols ==> result.data[r][c] == 0
    {
      var j := 0;
      while j < result.cols
        invariant 0 <= j <= mat2.cols
        invariant WellFormed(result) && result.rows == mat1.rows && result.cols == mat2.cols
        invariant forall r, c :: 0 <= r < i && 0 <= c < mat2.cols ==>
                    result.data[r][c] == Dot(mat1, mat2, r, c, mat1.cols)
        invariant forall c :: 0 <= c < j ==> result.data[i][c] == Dot(mat1, mat2, i, c, mat1.cols)
        invariant forall r, c :: i <= r < mat1.rows && 0 <= c < mat2.cols && (r > i || c >= j) ==>
                    result.data[r][c] == 0
      {
        var k := 0;
        while k < mat1.cols
          invariant 0 <= k <= mat1.cols
          invariant WellFormed(result) && result.rows == mat1.rows && result.cols == mat2.cols
          invariant forall r, c :: 0 <= r < i && 0 <= c < mat2.cols ==>
                      result.data[r][c] == Dot(mat1, mat2, r, c, mat1.cols)
          invariant forall c :: 0 <= c < j ==> result.data[i][c] == Dot(mat1, mat2, i, c, mat1.cols)
          invariant result.data[i][j] == Dot(mat1, mat2, i, j, k)
          invariant forall r, c :: i <= r < mat1.rows && 0 <= c < mat2.cols && (r > i || c > j) ==>
                      result.data[r][c] == 0
        {
          result := WithEntry(result, i, j, result.data[i][j] + mat1.data[i][k] * mat2.data[k][j]);
          k := k + 1;
        }
        j := j + 1;
      }
      i := i + 1;
    }
  }

  /** `MatrixTranspose`: the "matrix is empty" error exactly when both
      dimensions are zero, and otherwise the transpose. */
  method MatrixTranspose(mat: Matrix) returns (transposed: Matrix, err: Option<string>)
    requires WellFormed(mat)
    ensures err != None <==> mat.rows == 0 && mat.cols == 0
    ensures err != None ==> err == Some(EmptyMatrixError) && transposed == Zero
    ensures err == None ==> IsTranspose(mat, transposed)
  {
    if mat.rows == 0 && mat.cols == 0 {
      return Zero, Some(EmptyMatrixError);
    }
    transposed := NewMatrix(mat.cols, mat.rows);
    var i := 0;
    while i < mat.cols
      invariant 0 <= i <= mat.cols
      invariant WellFormed(transposed) && transposed.rows == mat.cols && transposed.cols == mat.rows
      invariant forall r, c :: 0 <= r < i && 0 <= c < mat.rows ==> transposed.data[r][c] == mat.data[c][r]
    {
      var j := 0;
      while j < mat.rows
        invariant 0 <= j <= mat.rows
        invariant WellFormed(transposed) && transposed.rows == mat.cols && transposed.cols == mat.rows
        invariant forall r, c :: 0 <= r < i && 0 <= c < mat.rows ==> transposed.data[r][c] == mat.data[c][r]
        invariant forall c :: 0 <= c < j ==> transposed.data[i][c] == mat.data[c][i]
      {
        transposed := WithEntry(transposed, i, j, mat.data[j][i]);
        j := j + 1;
      }
      i := i + 1;
    }
    err := None;
  }

  /** Two well-formed matrices of one shape that agree on every cell are equal:
      the relations above determine the kernels' results. */
  lemma {:induction false} MatrixExt(m1: Matrix, m2: Matrix)
    requires WellFormed(m1) && WellFormed(m2) && m1.rows == m2.rows && m1.cols == m2.cols
    requires forall i, j :: 0 <= i < m1.rows && 0 <= j < m1.cols ==> m1.data[i][j] == m2.data[i][j]
    ensures m1 == m2
  {
    forall i | 0 <= i < m1.rows
      ensures m1.data[i] == m2.data[i]
    {
      assert forall j :: 0 <= j < m1.cols ==> m1.data[i][j] == m2.data[i][j];
    }
  }

  /** On equal shapes addition commutes: `MatrixAdd(A, B)` and `MatrixAdd(B, A)`
      return the same matrix. */
  lemma AddCommutative(a: Matrix, b: Matrix, s: Matrix, t: Matrix)
    requires WellFormed(a) && WellFormed(b) && a.rows == b.rows && a.cols == b.cols
    requires IsSum(a, b, s) && IsSum(b, a, t)
    ensures s == t
  {
    MatrixExt(s, t);
  }

  /** Transposing a well-formed matrix that is not 0 by 0 succeeds, the result is
      not 0 by 0 either, and transposing that gives back the original. */
  lemma TransposeInvolutive(a: Matrix, t: Matrix, u: Matrix)
    requires WellFormed(a) && !(a.rows == 0 && a.cols == 0)
    requires IsTranspose(a, t)
    ensures !(t.rows == 0 && t.cols == 0)
    ensures IsTranspose(t, u) ==> u == a
  {
    if IsTranspose(t, u) {
      forall i, j | 0 <= i < a.rows && 0 <= j < a.cols
        ensures u.data[i][j] == a.data[i][j]
      {
        assert u.data[i][j] == t.data[j][i];
      }
      MatrixExt(u, a);
    }
  }
}
