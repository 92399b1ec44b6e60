/** The worker's RPC handler (worker/worker.go). `PerformOperation` receives a
    pointer to the caller's response; here the response goes in and its new
    value comes out. */
module Worker {
  import opened Wrappers
  import opened Shared
  import opened MatrixOps
  import opened Proto

  /** The request's matrices are well formed and large enough for the kernel its
      tag selects, so every cell that kernel reads exists. This is stronger than
      what Go needs: a kernel also runs without a panic on some matrices that are
      not well formed, such as a row longer than `Cols`. */
  predicate Executable(req: MatrixRequest) {
    && (req.operation == "add" ==> AddSafe(req.mat1, req.mat2))
    && (req.operation == "multiply" ==> MulSafe(req.mat1, req.mat2))
    && (req.operation == "transpose" ==> WellFormed(req.mat1))
  }

  /** `Worker.PerformOperation`: dispatch on the exact tag, then write exactly
      one of the two response fields and return the same error. */
  method PerformOperation(req: MatrixRequest, res: MatrixResponse) returns (res': MatrixResponse, err: Option<string>)
    requires Executable(req)
    // an error goes into `Error` only; a success into `Result` only
    ensures err != None ==> res'.error == err.value && res'.result == res.result
    ensures err == None ==> res'.error == res.error
    ensures req.operation == "add" ==> err == None && IsSum(req.mat1, req.mat2, res'.result)
    ensures req.operation == "multiply" ==> err == None && IsProduct(req.mat1, req.mat2, res'.result)
    ensures req.operation == "transpose" ==>
              && (err != None <==> req.mat1.rows == 0 && req.mat1.cols == 0)
              && (err != None ==> err == Some(EmptyMatrixError))
              && (err == None ==> IsTranspose(req.mat1, res'.result))
    ensures req.operation != "add" && req.operation != "multiply" && req.operation != "transpose" ==>
              err == Some("unknown operation " + req.operation)
  {
    var result := Zero;
    if req.operation == "add" {
      result, err := MatrixAdd(req.mat1, req.mat2);
    } else if req.operation == "multiply" {
      result, err := MatrixMul(req.mat1, req.mat2);
    } else if req.operation == "transpose" {
      result, err := MatrixTranspose(req.mat1);
    } else {
      err := Some("unknown operation " + req.operation);
    }

    if err != None {
      res' := res.(error := err.value);
      return;
    }

    res' := res.(result := result);
  }
}
