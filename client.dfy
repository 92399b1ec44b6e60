/** The three sample requests the client sends (client/client.go), passed to the
    worker's handler in `SampleRequests`, whose contract proves the responses. */
module Client {
  import opened Shared
  import opened MatrixOps
  import opened Proto
  import opened Worker

  const Mat1 := Matrix(2, 2, [[2, 2], [3, 4]])
  const Mat2 := Matrix(2, 2, [[4, 6], [1, 2]])
  const Mat3 := Matrix(2, 3, [[2, 3, 5], [1, 4, 6]])

  lemma SampleSum(s: Matrix)
    requires IsSum(Mat1, Mat2, s)
    ensures s == Matrix(2, 2, [[6, 8], [4, 6]])
  {
    var want := Matrix(2, 2, [[6, 8], [4, 6]]);
    forall i, j | 0 <= i < 2 && 0 <= j < 2
      ensures s.data[i][j] == want.data[i][j]
    {
      assert i == 0 || i == 1;
      assert j == 0 || j == 1;
    }
    MatrixExt(s, want);
  }

  lemma SampleProduct(p: Matrix)
    requires IsProduct(Mat1, Mat2, p)
    ensures p == Matrix(2, 2, [[10, 16], [16, 26]])
  {
    var want := Matrix(2, 2, [[10, 16], [16, 26]]);
    forall i, j | 0 <= i < 2 && 0 <= j < 2
      ensures p.data[i][j] == want.data[i][j]
    {
      assert Dot(Mat1, Mat2, i, j, 2) == Mat1.data[i][0] * Mat2.data[0][j] + Mat1.data[i][1] * Mat2.data[1][j];
      assert i == 0 || i == 1;
      assert j == 0 || j == 1;
    }
    MatrixExt(p, want);
  }

  lemma SampleTranspose(t: Matrix)
    requires IsTranspose(Mat3, t)
    ensures t == Matrix(3, 2, [[2, 1], [3, 4], [5, 6]])
  {
    var want := Matrix(3, 2, [[2, 1], [3, 4], [5, 6]]);
    forall i, j | 0 <= i < 3 && 0 <= j < 2
      ensures t.data[i][j] == want.data[i][j]
    {
      assert t.data[i][j] == Mat3.data[j][i];
      assert i == 0 || i == 1 || i == 2;
      assert j == 0 || j == 1;
    }
    MatrixExt(t, want);
  }

  /** The client's three requests, each answered into a fresh response. */
  method SampleRequests() returns (res1: MatrixResponse, res2: MatrixResponse, res3: MatrixResponse)
    ensures res1 == MatrixResponse(Matrix(2, 2, [[6, 8], [4, 6]]), "")
    ensures res2 == MatrixResponse(Matrix(2, 2, [[10, 16], [16, 26]]), "")
    ensures res3 == MatrixResponse(Matrix(3, 2, [[2, 1], [3, 4], [5, 6]]), "")
  {
    var blank := MatrixResponse(Zero, "");
    var err;
    res1, err := PerformOperation(MatrixRequest("add", Mat1, Mat2), blank);
    SampleSum(res1.result);
    res2, err := PerformOperation(MatrixRequest("multiply", Mat1, Mat2), blank);
    SampleProduct(res2.result);
    res3, err := PerformOperation(MatrixRequest("transpose", Mat3, Zero), blank);
    SampleTranspose(res3.result);
  }
}
