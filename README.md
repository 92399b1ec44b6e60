# Distributed matrix service: verified model of its core

A client sends matrix requests (add, multiply, transpose) to a coordinator.
The coordinator forwards each one to the least busy of the workers that have
registered with it. This project models the parts of that system that compute
or decide something:

- the matrix entity with its constructor and dimension check (`Shared`);
- the worker's three kernels (`MatrixOps`);
- the worker's request dispatcher (`Worker`), over the request and response
  payloads (`Proto`);
- the coordinator's worker registry, which maps each worker address to its
  in-flight task count (`Coordinator`). It covers registration, least-busy
  selection, eviction, one liveness tick, the probe reply check, and the
  dispatch loop.
- the client's three sample requests (`Client`), passed to the worker's
  dispatcher in `SampleRequests`, whose contract proves the responses.

The model follows the code:

- **Dimension checks never fire.** Both `MatrixAdd` and `MatrixMul` call
  `ValidateMatrices` with the tag `"Add"`. The check compares its tag exactly,
  case-sensitively, with `"add"` and `"multiply"`, so neither kernel ever
  reports a dimension mismatch. `MatrixMul` never checks
  `mat1.Cols == mat2.Rows` either. A request whose matrices are too small makes
  the Go kernel index out of range. The model therefore states index safety as
  a precondition (`AddSafe`, `MulSafe`, `Worker.Executable`), where a dimension
  error was evidently meant.
- **Multiply sums over `k < mat1.Cols` only.** Rows of `mat2` beyond that are
  never read.
- **Retries are unbounded.** `RequestComputation` retries until a dial succeeds
  or the registry is empty; there is no retry bound. The loop still
  terminates: each failed dial evicts one worker, and the registry's key set
  is the decreasing measure.
- **A failed call does not evict.** A call error only gets the prefix
  `"computation error: "`. The worker stays registered, with its load restored.
  A transport-level call failure is treated the same way, not like a dial
  failure.
- **No worker answers the heartbeat.** The heartbeat calls `Worker.Ping`
  (coordinator/coordinator.go:45), but the worker type declares only
  `PerformOperation` (worker/worker.go:15-41), so `net/rpc` answers every such
  call with a "can't find method" error. Against the real workers every probe
  that connects fails, and one tick empties the registry
  (`NoPingEmptiesRegistry`). The probe answers stay an input of the model, so
  the tick is also specified for workers that do reply "pong".

The network is not modelled. Each dial result, call outcome and probe outcome
is an input: a function from the worker address to that outcome. Go's random
map iteration order is modelled by choosing the next key nondeterministically,
so the least-busy scan is specified as returning *some* key of minimum load.

Matrices are a datatype (`rows`, `cols`, `data: seq<seq<int>>`). The kernels
are methods with nested loops that write the fresh grid cell by cell. Their
results are specified by relations (`IsSum`, `IsProduct`, `IsTranspose`), and
the extensionality lemma `MatrixExt` shows that each relation determines its
result.

## Model

| member | source | states |
|---|---|---|
| `Shared.NewMatrix` | shared/matrix.go:14-20 | the grid has `rows` rows and `cols` columns, `Rows`/`Cols` are set, and every entry is 0 (negative lengths, on which `make` panics, are excluded) |
| `Shared.ValidateMatrices` | shared/matrix.go:28-41 | "add" errors exactly when a dimension differs, "multiply" errors exactly when `mat1.Cols != mat2.Rows`, each with its own message; any other tag is accepted |
| `Shared.KernelTagNeverValidates` | shared/matrix.go:29-38 | the tag "Add" the kernels pass accepts any pair of matrices, while "add" rejects a row mismatch |
| `MatrixOps.MatrixAdd` | worker/matrix_ops.go:8-22 | never an error; the result is `mat1`-shaped, well formed, with `sum[i][j] == mat1[i][j] + mat2[i][j]` |
| `MatrixOps.MatrixMul` | worker/matrix_ops.go:24-40 | never an error; the result is `mat1.Rows` by `mat2.Cols` with `result[i][j]` the sum over `k < mat1.Cols` of `mat1[i][k] * mat2[k][j]` |
| `MatrixOps.MatrixTranspose` | worker/matrix_ops.go:42-54 | the "matrix is empty" error (with the zero matrix) exactly when both dimensions are 0; otherwise `Cols` by `Rows` with `T[i][j] == mat[j][i]` |
| `MatrixOps.MatrixExt` | shared/matrix.go:8-12 | two well-formed matrices of one shape that agree on every cell are equal |
| `MatrixOps.AddCommutative` | worker/matrix_ops.go:17 | on equal shapes, the results of `MatrixAdd(A, B)` and `MatrixAdd(B, A)` are the same matrix |
| `MatrixOps.TransposeInvolutive` | worker/matrix_ops.go:43-52 | transposing a well-formed matrix that is not 0 by 0 gives a matrix that is not 0 by 0, and transposing that gives back the original |
| `Worker.PerformOperation` | worker/worker.go:18-41 | "add", "multiply" and "transpose" run their kernel (transpose reads only `Mat1`); any other tag gives `"unknown operation " + tag`; an error is written to `Error` only and returned; a success is written to `Result` only |
| `Client.SampleSum` | client/client.go:31-32 | adding the client's two 2 by 2 samples gives `[[6,8],[4,6]]` |
| `Client.SampleProduct` | client/client.go:31-32 | multiplying them gives `[[10,16],[16,26]]` |
| `Client.SampleTranspose` | client/client.go:33 | transposing the 2 by 3 sample gives `[[2,1],[3,4],[5,6]]` |
| `Client.SampleRequests` | client/client.go:36-56 | the three sample requests, answered by the worker's dispatcher, come back with those results and an empty error |
| `Coordinator.SendHeartbeat` | coordinator/coordinator.go:37-55 | a probe passes exactly when it connected, the call returned no error and the reply is "pong"; otherwise the dial, call or reply error in that order |
| `Coordinator.RegisterSpec` | coordinator/coordinator.go:63-66 | registering adds an absent address with load 0, changes no other entry, leaves a present one alone, is idempotent and keeps loads in range |
| `Coordinator.SurvivorsSpec` | coordinator/coordinator.go:26-32 | a heartbeat tick keeps exactly the addresses whose probe connected, answered without error and replied "pong", with unchanged loads |
| `Coordinator.ReserveReleaseBalance` | coordinator/coordinator.go:103-119 | for a registered worker, the `++` before the call and the `--` after it leave the registry exactly as it was |
| `Coordinator.AbsentStaysAbsent` | coordinator/coordinator.go:131-137 | an address out of the registry stays out over any run of registrations, ticks, evictions, increments and decrements that do not name it, so no later selection returns it |
| `Coordinator.ReleaseRecreates` | coordinator/coordinator.go:118-120 | a decrement for an already evicted address re-creates it with load -1, which makes it the least busy worker |
| `Coordinator.NoPingEmptiesRegistry` | coordinator/coordinator.go:45-48 | when every connected probe's call fails, one tick leaves an empty registry |
| `Coordinator.Coordinator.constructor` | coordinator/coordinator.go:148 | the coordinator starts with an empty registry |
| `Coordinator.Coordinator.RegisterWorker` | coordinator/coordinator.go:58-70 | the registry becomes `Register(old registry, addr)`; the reply is "Worker registered successfully" and the error nil |
| `Coordinator.Coordinator.GetLeastBusyWorker` | coordinator/coordinator.go:72-90 | "no available workers" exactly on an empty registry; otherwise a registered address whose load is at most every load, when some load is below the `MaxInt` sentinel; the registry is not changed |
| `Coordinator.Coordinator.HandleWorkerFailure` | coordinator/coordinator.go:131-137 | the address is removed and every other entry is unchanged |
| `Coordinator.Coordinator.HeartbeatTick` | coordinator/coordinator.go:25-33 | after one tick the registry is exactly the entries whose probe passed, loads unchanged |
| `Coordinator.Coordinator.Reserve` | coordinator/coordinator.go:95-105 | on an empty registry the error and no change; otherwise a least busy worker, and the registry becomes `Bumped(old registry, worker, 1)`: its load goes up by one |
| `Coordinator.Coordinator.Release` | coordinator/coordinator.go:118-120 | the registry becomes `Bumped(old registry, addr, -1)`: the worker's load goes down by one, an absent key reading as 0 |
| `Coordinator.Coordinator.RequestComputation` | coordinator/coordinator.go:93-128 | exactly the workers whose dial failed are evicted and every other load is back to its old value; an empty registry means no dial and the no-workers error; if every dial fails the call ends with that error and an empty registry; otherwise the least busy remaining worker was dialled, stays registered, and its call's response and error (prefixed "computation error: ") are returned |

## Left out

- Network transport (`rpc.Dial`, `client.Call`, TLS): each dial, call and probe outcome is an input. As a result, what `client.Call` writes into the response is an input too. In `net/rpc`, a method that returns a non-nil error sends no reply, so the `res.Error` the worker writes (worker/worker.go:35) does not reach the coordinator. The kernel's error arrives only as the call error, which `RequestComputation` prefixes with "computation error: " (coordinator/coordinator.go:122-123). The unconstrained `call` input covers this.
- Process bootstrap: the `main` functions of coordinator and worker, listeners, accept loops, certificate loading, `rpc.Register` and `ServeConn`.
- `registerWithCoordinator` in the worker: it is one outbound network call that ends in `log.Fatal` on failure.
- The heartbeat ticker and its endless loop: one tick is modelled (`HeartbeatTick`).
- The mutex and concurrent requests: each method runs alone. Two behaviours that only concurrency can produce are therefore not reached. First, the heartbeat holds the lock across its network probes. Second, a release after a concurrent eviction re-creates the key with load -1, which then makes that worker the least busy (`ReleaseRecreates`). `Release` models the Go decrement exactly (an absent key reads as 0), but nothing calls it on an absent key.
- `Matrix.Print`, all logging, and the client's goroutine fan-out and sleep: output and timing only.
- The `WorkerService` interface: a declaration without behaviour.
- Go's 64-bit `int` overflow in sums, products and load counters: integers are unbounded.
- MatrixOps.MatrixAdd: its precondition `AddSafe` excludes every request on which Go panics with an index out of range. It requires both matrices to be well formed, with `mat2` at least as large as `mat1`. That also excludes inputs Go serves without a panic. For example, `mat1 = Matrix(1,1,[[1,2]])` with `mat2 = Matrix(1,1,[[3]])` gives `[[4]]` in Go. A ragged `mat2` whose rows are merely long enough is another such input.
- MatrixOps.MatrixMul: its precondition `MulSafe` excludes every panic in the same way. It requires both matrices to be well formed and `mat1.Cols <= mat2.Rows` whenever the product has a cell. It also excludes matrices that are not well formed but whose cells Go can still read, such as rows longer than `Cols`.
- MatrixOps.MatrixTranspose: its precondition `requires WellFormed(mat)` excludes matrices that are not well formed, on some of which Go still answers. For example, `Matrix(1,1,[[1,2]])` transposes to `[[1]]` in Go. `Matrix(0,0,[[7]])` gets the "matrix is empty" error in Go.
- Worker.PerformOperation: `Executable` restricts requests to those whose matrices are well formed and large enough for the selected kernel. It excludes every request that would make a kernel panic and crash the worker in Go. It also excludes requests Go answers whose matrices are not well formed, such as `transpose` of `Matrix(1,1,[[1,2]])` (result `[[1]]`) or of `Matrix(0,0,[[7]])` (the "matrix is empty" error written to `Error`).
- Coordinator.Coordinator.RequestComputation: the registry invariant `Valid` bounds loads below the `MaxInt` sentinel. In Go, a registry whose every load has reached `MaxInt` would make the scan return the empty address, and the loop would never end. That would take 2^63-1 simultaneous tasks on every worker.
- Coordinator.Coordinator.RequestComputation: does not record the order in which workers were tried, only the set of evicted workers and that each of them had a load no larger than any worker still registered.
