/** The RPC payloads shared by client, coordinator and worker
    (proto/rpc_definitions.go). */
module Proto {
  import opened Shared

  /** `MatrixRequest`: the tag selects the kernel and which matrices it reads. */
  datatype MatrixRequest = MatrixRequest(operation: string, mat1: Matrix, mat2: Matrix)

  /** `MatrixResponse`: a result grid and an error text ("" when none was set). */
  datatype MatrixResponse = MatrixResponse(result: Matrix, error: string)
}
