/** The coordinator's worker registry and dispatch loop
    (coordinator/coordinator.go). The registry maps each worker address to its
    number of in-flight tasks. The network is not modelled: every dial, call and
    probe outcome is an input. The mutex and the goroutines that share the
    registry are not modelled either; each method runs alone. */
module Coordinator {
  import opened Wrappers
  import opened Proto

  /** `int(^uint(0) >> 1)` on a 64-bit platform: the starting minimum of the
      least-busy scan. */
  const MaxInt := 0x7FFF_FFFF_FFFF_FFFF

  const NoWorkers := "no available workers"
  const RegisteredReply := "Worker registered successfully"
  const ComputationPrefix := "computation error: "
  const Pong := "pong"

  /** What the network answers when one address is probed: whether `rpc.Dial`
      connected, the error of the `Worker.Ping` call, and its reply. */
  datatype ProbeOutcome = ProbeOutcome(connected: bool, callErr: Option<string>, reply: string)

  /** What `client.Call("Worker.PerformOperation", req, res)` leaves behind: the
      value it writes into `*res` and the error it returns. */
  datatype CallOutcome = CallOutcome(response: MatrixResponse, err: Option<string>)

  /** `SendHeartbeat`: a probe passes only when it connected, the call returned
      no error and the reply is exactly "pong". */
  function SendHeartbeat(p: ProbeOutcome): (err: Option<string>)
    ensures err == None <==> p.connected && p.callErr == None && p.reply == Pong
    ensures !p.connected ==> err == Some("failed to connect to worker")
    ensures p.connected && p.callErr != None ==> err == p.callErr
    ensures p.connected && p.callErr == None && p.reply != Pong ==>
              err == Some("unexpected response from worker")
  {
    if !p.connected then Some("failed to connect to worker")
    else if p.callErr != None then p.callErr
    else if p.reply != Pong then Some("unexpected response from worker")
    else None
  }

  /** Loads as the registry keeps them: never negative, and below the scan's
      starting minimum. */
  ghost predicate LoadsInRange(m: map<string, int>) {
    forall a :: a in m ==> 0 <= m[a] < MaxInt
  }

  /** The registry after `RegisterWorker(a)`. */
  function Register(m: map<string, int>, a: string): (r: map<string, int>) {
    if a in m then m else m[a := 0]
  }

  /** The registry after one heartbeat tick with the probe answers `probe`. */
  function Survivors(m: map<string, int>, probe: string -> ProbeOutcome): (r: map<string, int>) {
    map a | a in m && SendHeartbeat(probe(a)) == None :: m[a]
  }

  /** `a` is a registered address whose load is at most every other load. */
  ghost predicate LeastBusy(m: map<string, int>, a: string) {
    a in m && forall b :: b in m ==> m[a] <= m[b]
  }

  /** Registering an address that is absent adds it with load 0 and changes no
      other entry; registering one that is present changes nothing; so a second
      registration is a no-op. */
  lemma RegisterSpec(m: map<string, int>, a: string)
    ensures a in Register(m, a) && (a !in m ==> Register(m, a)[a] == 0)
    ensures a in m ==> Register(m, a) == m
    ensures forall b :: b != a ==> (b in Register(m, a) <==> b in m)
    ensures forall b :: b in m ==> Register(m, a)[b] == m[b]
    ensures Register(Register(m, a), a) == Register(m, a)
    ensures LoadsInRange(m) ==> LoadsInRange(Register(m, a))
  {
  }

  /** A heartbeat tick keeps exactly the workers that connected, answered
      without error and replied "pong", with their loads. */
  lemma SurvivorsSpec(m: map<string, int>, probe: string -> ProbeOutcome)
    ensures forall a :: a in Survivors(m, probe) <==>
              a in m && probe(a).connected && probe(a).callErr == None && probe(a).reply == Pong
    ensures forall a :: a in Survivors(m, probe) ==> Survivors(m, probe)[a] == m[a]
    ensures LoadsInRange(m) ==> LoadsInRange(Survivors(m, probe))
  {
  }

  /** Go's `m[w] += d`: an absent key reads as 0 and is created. */
  function Bumped(m: map<string, int>, w: string, d: int): (r: map<string, int>) {
    m[w := (if w in m then m[w] else 0) + d]
  }

  /** The increment before a call and the decrement after it cancel out, so a
      served worker that stays registered ends with the load it had. */
  lemma ReserveReleaseBalance(m: map<string, int>, w: string)
    requires w in m
    ensures Bumped(Bumped(m, w, 1), w, -1) == m
  {
  }

  /** One change the coordinator makes to its registry: `RegisterWorker`, one
      heartbeat tick, `handleWorkerFailure`, and the increment and decrement
      that `RequestComputation` wraps around a call. */
  datatype Step =
    | Registered(addr: string)
    | Ticked(probe: string -> ProbeOutcome)
    | Evicted(addr: string)
    | Reserved(addr: string)
    | Released(addr: string)

  /** The step names `a` as the address it registers, counts against or releases. */
  predicate Names(s: Step, a: string) {
    match s
    case Registered(b) => b == a
    case Ticked(_) => false
    case Evicted(_) => false
    case Reserved(b) => b == a
    case Released(b) => b == a
  }

  /** The registry after one step; only a step that names an address can add it. */
  function Apply(m: map<string, int>, s: Step): (r: map<string, int>)
    ensures forall c :: c in r && c !in m ==> Names(s, c)
  {
    match s
    case Registered(b) => Register(m, b)
    case Ticked(probe) => Survivors(m, probe)
    case Evicted(b) => m - {b}
    case Reserved(b) => Bumped(m, b, 1)
    case Released(b) => Bumped(m, b, -1)
  }

  /** The registry after a run of steps, first step first. */
  function Run(m: map<string, int>, steps: seq<Step>): (r: map<string, int>)
    decreases |steps|
  {
    if steps == [] then m else Run(Apply(m, steps[0]), steps[1..])
  }

  /** Once an address is out of the registry (evicted, or never registered),
      every run of steps that does not name it keeps it out, so no later
      least-busy selection returns it. The coordinator's own `Reserved` steps
      only name registered addresses (`Reserve`), and run alone its `Released`
      step follows the `Reserved` step of the same call with no eviction in
      between; `ReleaseRecreates` shows what happens otherwise. */
  lemma {:induction false} AbsentStaysAbsent(m: map<string, int>, a: string, steps: seq<Step>)
    requires a !in m
    requires forall i :: 0 <= i < |steps| ==> !Names(steps[i], a)
    ensures a !in Run(m, steps)
    ensures forall c :: LeastBusy(Run(m, steps), c) ==> c != a
    decreases |steps|
  {
    if steps != [] {
      assert !Names(steps[0], a);
      AbsentStaysAbsent(Apply(m, steps[0]), a, steps[1..]);
    }
  }

  /** A decrement for an address that has already been evicted re-creates it
      with load -1, below every load the registry keeps, so it becomes the
      least busy worker. Only a concurrent eviction during a call leads here. */
  lemma ReleaseRecreates(m: map<string, int>, a: string)
    requires a !in m && LoadsInRange(m)
    ensures Apply(m, Released(a)) == m[a := -1]
    ensures LeastBusy(Apply(m, Released(a)), a)
  {
  }

  /** The worker declares no `Ping` method, so against the real workers every
      probe that connects fails its call; under such probe answers one tick
      empties the registry. */
  lemma NoPingEmptiesRegistry(m: map<string, int>, probe: string -> ProbeOutcome)
    requires forall a :: !probe(a).connected || probe(a).callErr != None
    ensures Survivors(m, probe) == map[]
  {
  }

  class Coordinator {
    /** Worker address to in-flight task count. */
    var workers: map<string, int>

    ghost predicate Valid()
      reads this
    {
      LoadsInRange(workers)
    }

    /** `&Coordinator{workers: make(map[string]int)}`. */
    constructor ()
      ensures Valid() && workers == map[]
    {
      workers := map[];
    }

    /** `RegisterWorker`: insert with load 0 when absent; always acknowledge. */
    method RegisterWorker(workerAddr: string) returns (reply: string, err: Option<string>)
      requires Valid()
      modifies this
      ensures Valid()
      ensures workers == Register(old(workers), workerAddr)
      ensures reply == RegisteredReply && err == None
    {
      if workerAddr !in workers {
        workers := workers[workerAddr := 0];
      }
      reply := RegisteredReply;
      err := None;
      RegisterSpec(old(workers), workerAddr);
    }

    /** `getLeastBusyWorker`: the error exactly on an empty registry; otherwise
        some address of minimum load, visited in an order the caller cannot
        choose. A worker is picked only if its load is below the starting
        minimum `MaxInt`; if none is, the empty address comes back without an
        error. */
    method GetLeastBusyWorker() returns (selected: string, err: Option<string>)
      ensures err != None <==> workers == map[]
      ensures err != None ==> err == Some(NoWorkers) && selected == ""
      ensures (exists a :: a in workers && workers[a] < MaxInt) ==> LeastBusy(workers, selected)
      ensures (forall a :: a in workers ==> MaxInt <= workers[a]) ==> selected == ""
    {
      if |workers| == 0 {
        return "", Some(NoWorkers);
      }
      err := None;
      selected := "";
      var minLoad := MaxInt;
      ghost var found := false;
      var unvisited := workers.Keys;
      while unvisited != {}
        invariant unvisited <= workers.Keys
        invariant found ==> selected in workers && workers[selected] == minLoad && minLoad < MaxInt
        invariant !found ==> selected == "" && minLoad == MaxInt
        invariant forall a :: a in workers && a !in unvisited ==> minLoad <= workers[a]
        invariant !found ==> forall a :: a in workers && a !in unvisited ==> MaxInt <= workers[a]
        decreases unvisited
      {
        var worker :| worker in unvisited;
        var load := workers[worker];
        if load < minLoad {
          selected, minLoad := worker, load;
          found := true;
        }
        unvisited := unvisited - {worker};
      }
      assert workers != map[] by {
        assert |workers| != 0;
      }
    }

    /** `handleWorkerFailure`: remove the address unconditionally. */
    method HandleWorkerFailure(workerAddr: string)
      modifies this
      ensures workers == old(workers) - {workerAddr}
      ensures old(Valid()) ==> Valid()
    {
      workers := workers - {workerAddr};
    }

    /** One tick of `HeartbeatChecker`: probe every registered address once and
        delete each whose probe fails. */
    method HeartbeatTick(probe: string -> ProbeOutcome)
      requires Valid()
      modifies this
      ensures Valid()
      ensures workers == Survivors(old(workers), probe)
    {
      var unvisited := workers.Keys;
      while unvisited != {}
        invariant unvisited <= old(workers).Keys
        invariant forall a :: a in workers <==>
                    a in old(workers) && (a in unvisited || SendHeartbeat(probe(a)) == None)
        invariant forall a :: a in workers ==> workers[a] == old(workers)[a]
        decreases unvisited
      {
        var workerAddr :| workerAddr in unvisited;
        var err := SendHeartbeat(probe(workerAddr));
        if err != None {
          workers := workers - {workerAddr};
        }
        unvisited := unvisited - {workerAddr};
      }
      SurvivorsSpec(old(workers), probe);
    }

    /** The first critical section of `RequestComputation`: pick the least busy
        worker and count one more task against it (`c.workers[workerAddr]++`). */
    method Reserve() returns (workerAddr: string, err: Option<string>)
      requires Valid()
      modifies this
      ensures err != None <==> old(workers) == map[]
      ensures err != None ==> err == Some(NoWorkers) && workers == old(workers)
      ensures err == None ==>
                && LeastBusy(old(workers), workerAddr)
                && workers == Bumped(old(workers), workerAddr, 1)
    {
      workerAddr, err := GetLeastBusyWorker();
      if err != None {
        return;
      }
      ghost var some :| some in workers;
      assert workers[some] < MaxInt;
      workers := workers[workerAddr := workers[workerAddr] + 1];
    }

    /** The second critical section: `c.workers[workerAddr]--`. Go reads an
        absent key as 0, so after a concurrent eviction this would re-create the
        key with load -1; run alone, the key is always present. */
    method Release(workerAddr: string)
      modifies this
      ensures workers == Bumped(old(workers), workerAddr, -1)
    {
      var load := if workerAddr in workers then workers[workerAddr] else 0;
      workers := workers[workerAddr := load - 1];
    }

    /** `RequestComputation`: reserve the least busy worker and dial it; an
        unreachable worker is evicted and selection repeats, so the loop ends
        once a dial succeeds or the registry is empty. After a successful dial
        the call's outcome is passed on and the slot is released. `evicted` is
        the set of workers whose dial failed, `served` the worker dialled
        successfully, if any. */
    method RequestComputation(req: MatrixRequest, res: MatrixResponse,
                              dial: string -> bool, call: (string, MatrixRequest) -> CallOutcome)
      returns (res': MatrixResponse, err: Option<string>, ghost evicted: set<string>, ghost served: Option<string>)
      requires Valid()
      modifies this
      ensures Valid()
      // exactly the workers that could not be dialled are gone; every other load is back where it was
      ensures evicted <= old(workers).Keys && forall a :: a in evicted ==> !dial(a)
      ensures workers == old(workers) - evicted
      // each evicted worker was selected while no survivor was less busy
      ensures forall a, b :: a in evicted && b in workers ==> old(workers)[a] <= old(workers)[b]
      // no transport call is attempted against an empty registry
      ensures old(workers) == map[] ==> evicted == {} && served == None
      // no worker could be dialled: the registry ends empty
      ensures served == None ==> err == Some(NoWorkers) && workers == map[] && res' == res
      ensures (forall a :: a in old(workers) ==> !dial(a)) ==> served == None
      // a dialled worker, least busy of those left, answered and stays registered even if the call failed
      ensures served != None ==>
                var a := served.value;
                && dial(a) && LeastBusy(workers, a)
                && res' == call(a, req).response
                && err == (if call(a, req).err == None then None
                           else Some(ComputationPrefix + call(a, req).err.value))
    {
      res', evicted, served := res, {}, None;
      while true
        invariant Valid()
        invariant evicted <= old(workers).Keys && forall a :: a in evicted ==> !dial(a)
        invariant workers == old(workers) - evicted
        invariant forall a, b :: a in evicted && b in workers ==> old(workers)[a] <= old(workers)[b]
        invariant res' == res
        decreases workers.Keys
      {
        ghost var before := workers;
        var workerAddr, e := Reserve();
        if e != None {
          err := e;
          return;
        }

        if !dial(workerAddr) {
          HandleWorkerFailure(workerAddr);
          assert workers == before - {workerAddr};
          evicted := evicted + {workerAddr};
          continue;
        }

        var outcome := call(workerAddr, req);
        res' := outcome.response;
        Release(workerAddr);
        assert workers == before;
        served := Some(workerAddr);

        if outcome.err != None {
          err := Some(ComputationPrefix + outcome.err.value);
        } else {
          err := None;
        }
        return;
      }
    }
  }
}
