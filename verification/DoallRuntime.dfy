/** The DOALL part of the parallel runtime: the idle-core counter, the pool of argument blocks, and the
    fork and join of any number of dispatchers running at once. */
module DoallRuntime {
  import opened MachineInt
  import opened Options

  const UINT32: int := 0x1_0000_0000

  /** What a task is to call: the loop, its environment, the number of cores and the chunk size. */
  datatype Job = Job(loop: nat, env: nat, numCores: nat, chunkSize: int)

  /** Memory for the arguments of one task. Fresh memory holds anything; a prepared slot has its core id and
      its end lock, and a job once one has been written to it. */
  datatype Slot = Garbage | Slot(coreID: nat, endLocked: bool, job: Option<Job>)

  predicate IsPrepared(slot: Slot, k: nat, endLocked: bool)
  {
    slot.Slot? && slot.coreID == k && slot.endLocked == endLocked
  }

  /** How many cores a request gets. The signed counter is read as unsigned here, so a negative one looks large. */
  function Grant(idle: int, requested: nat): (granted: nat)
    requires 0 <= idle < UINT32
    ensures granted >= 1 && (granted <= requested || granted == 1)
    ensures granted >= requested || granted >= idle
  {
    var numCores := if idle >= requested then requested else idle;
    if numCores < 1 then 1 else numCores
  }

  /** The grant stays within the idle count exactly when at least one core is idle: an empty or overdrawn
      counter still grants. */
  lemma GrantWithinIdleIff(idle: int, requested: nat)
    requires 0 <= idle < UINT32
    ensures Grant(idle, requested) <= Signed(idle, UINT32) <==> Signed(idle, UINT32) >= 1
  {
  }

  /** With the counter at -1, a request for 5 gets 5. */
  lemma OverdrawnCounterGrants()
    ensures Signed(UINT32 - 1, UINT32) == -1 && Grant(UINT32 - 1, 5) == 5
  {
  }

  predicate Fits(sizes: seq<nat>, available: seq<bool>, cores: nat, i: nat)
    requires i < |sizes| == |available|
  {
    available[i] && sizes[i] >= cores
  }

  /** The first available block large enough, from position i on; |sizes| if there is none. */
  function FirstFit(sizes: seq<nat>, available: seq<bool>, cores: nat, i: nat): (index: nat)
    requires i <= |sizes| == |available|
    ensures i <= index <= |sizes|
    ensures index < |sizes| ==> Fits(sizes, available, cores, index)
    ensures forall j :: i <= j < index ==> !Fits(sizes, available, cores, j)
    ensures index < |sizes| ==> available[index] && sizes[index] >= cores
    ensures forall j :: i <= j < index ==> !available[j] || sizes[j] < cores
    decreases |sizes| - i
  {
    if i == |sizes| || Fits(sizes, available, cores, i) then i else FirstFit(sizes, available, cores, i + 1)
  }

  /** Every slot carries its own position as core id and its end lock is held. */
  ghost predicate Clean(block: seq<Slot>)
  {
    forall k :: 0 <= k < |block| ==> IsPrepared(block[k], k, true)
  }

  /** The counter of idle cores is a 32-bit integer. */
  function TakeCores(idle: int, n: nat): int
  {
    Wrap(idle - n, UINT32)
  }

  function GiveCores(idle: int, n: nat): int
  {
    Wrap(idle + n, UINT32)
  }

  /** The argument blocks: their sizes, which are available, and what they hold. */
  datatype Pool = Pool(sizes: seq<nat>, available: seq<bool>, memory: seq<seq<Slot>>)

  function CleanBlock(cores: nat): (block: seq<Slot>)
    ensures |block| == cores && Clean(block)
  {
    seq(cores, k requires 0 <= k < cores => Slot(k, true, None))
  }

  /** The pool after a block is taken: the first fit, or a new one of exactly the size asked for. */
  function TakeBlock(p: Pool, cores: nat): Pool
    requires |p.sizes| == |p.available|
  {
    var index := FirstFit(p.sizes, p.available, cores, 0);
    if index < |p.sizes| then p.(available := p.available[index := false])
    else Pool(p.sizes + [cores], p.available + [false], p.memory + [CleanBlock(cores)])
  }

  function GiveBlock(p: Pool, index: nat): Pool
    requires index < |p.available|
  {
    p.(available := p.available[index := true])
  }

  class NoelleRuntime {
    var idleCores: int
    var sizes: seq<nat>
    var available: seq<bool>
    var memory: seq<seq<Slot>>

    ghost predicate Valid()
      reads this
    {
      && 0 <= idleCores < UINT32
      && |sizes| == |available| == |memory|
      && (forall b :: 0 <= b < |memory| ==> |memory[b]| == sizes[b])
      && (forall b :: 0 <= b < |memory| && available[b] ==> Clean(memory[b]))
    }

    ghost function Contents(): Pool
      reads this
    {
      Pool(sizes, available, memory)
    }

    constructor (maxCores: nat)
      requires maxCores < UINT32
      ensures Valid() && idleCores == maxCores && sizes == []
    {
      idleCores, sizes, available, memory := maxCores, [], [], [];
    }

    method ReserveCores(coresRequested: nat) returns (numCores: nat)
      requires Valid() && coresRequested < UINT32
      modifies this`idleCores
      ensures Valid() && numCores == Grant(old(idleCores), coresRequested)
      ensures idleCores == TakeCores(old(idleCores), numCores)
    {
      numCores := if idleCores >= coresRequested then coresRequested else idleCores;
      if numCores < 1 {
        numCores := 1;
      }
      idleCores := Wrap(idleCores - numCores, UINT32);
    }

    method ReleaseCores(coresReleased: nat)
      requires Valid() && coresReleased > 0
      modifies this`idleCores
      ensures Valid() && idleCores == GiveCores(old(idleCores), coresReleased)
    {
      idleCores := Wrap(idleCores + coresReleased, UINT32);
    }

    /** The first available block that is large enough, or a new one of exactly the size asked for; either
        way the caller gets clean slots and nobody else can get them. */
    method GetDOALLArgs(cores: nat) returns (index: nat)
      requires Valid()
      modifies this`sizes, this`available, this`memory
      ensures Valid() && index == FirstFit(old(sizes), old(available), cores, 0)
      ensures index < |sizes| && !available[index] && sizes[index] >= cores && Clean(memory[index])
      ensures Contents() == TakeBlock(old(Contents()), cores)
    {
      var numberOfChunks := |available|;
      var i := 0;
      while i < numberOfChunks
        invariant 0 <= i <= numberOfChunks
        invariant FirstFit(sizes, available, cores, 0) == FirstFit(sizes, available, cores, i)
      {
        var currentSize := sizes[i];
        if available[i] && currentSize >= cores {
          available := available[i := false];
          return i;
        }
        i := i + 1;
      }
      sizes := sizes + [cores];
      available := available + [false];
      var args: seq<Slot> := seq(cores, k => Garbage);
      index := numberOfChunks;
      for k := 0 to cores
        invariant |args| == cores && forall l :: 0 <= l < k ==> args[l] == Slot(l, true, None)
      {
        args := args[k := Slot(k, true, None)];
      }
      assert args == CleanBlock(cores);
      memory := memory + [args];
    }

    /** A block goes back to the pool; its last user must have left all its end locks held. */
    method ReleaseDOALLArgs(index: nat)
      requires Valid() && index < |available| && Clean(memory[index])
      modifies this`available
      ensures Valid() && Contents() == GiveBlock(old(Contents()), index)
    {
      available := available[index := true];
    }
  }

  // ----- dispatchers interleaved -----

  /** Where a dispatcher is: n cores granted, the block it uses, and how far its current loop is. */
  datatype Phase =
    | Start(requested: nat)
    | Reserved(n: nat)
    | Preparing(n: nat, block: nat, i: nat)
    | Submitting(n: nat, block: nat, i: nat)
    | Joining(n: nat, block: nat, i: nat)
    | Joined(n: nat, block: nat)
    | CoresReleased(n: nat, block: nat)
    | Done(n: nat)

  /** What a dispatcher is called with. */
  datatype Request = Request(loop: nat, env: nat, maxCores: nat, chunkSize: int)

  /** One call of a loop: the job read from the slot, and the core id. */
  datatype Run = Run(job: Option<Job>, coreID: nat)

  /** The shared runtime, the dispatchers and their requests, the submitted and unfinished tasks (dispatcher,
      slot), and, as history, the calls made by each dispatcher and its tasks. */
  datatype State = State(
    idle: int, sizes: seq<nat>, available: seq<bool>, memory: seq<seq<Slot>>,
    requests: seq<Request>, phase: seq<Phase>, pending: set<(nat, nat)>, ran: seq<multiset<Run>>)

  /** The job of dispatcher d once it has been granted n cores. */
  function JobOf(st: State, d: nat, n: nat): Job
    requires d < |st.requests|
  {
    Job(st.requests[d].loop, st.requests[d].env, n, st.requests[d].chunkSize)
  }

  datatype Step =
    | Reserve(d: nat)
    | GetArgs(d: nat)
    | PrepareSlot(d: nat)
    | Submit(d: nat)
    | RunOwnTask(d: nat)
    | Join(d: nat)
    | ReleaseTheCores(d: nat)
    | ReleaseArgs(d: nat)
    | FinishTask(d: nat, i: nat)

  function Init(maxCores: nat, requests: seq<Request>): State
  {
    State(Wrap(maxCores, UINT32), [], [], [], requests,
          seq(|requests|, d requires 0 <= d < |requests| => Start(requests[d].maxCores)), {}, seq(|requests|, d => multiset{}))
  }

  predicate Uses(p: Phase, b: nat)
  {
    (p.Preparing? || p.Submitting? || p.Joining? || p.Joined? || p.CoresReleased?) && p.block == b
  }

  ghost predicate Shaped(st: State)
  {
    && 0 <= st.idle < UINT32
    && |st.sizes| == |st.available| == |st.memory|
    && |st.phase| == |st.ran| == |st.requests|
    && (forall b :: 0 <= b < |st.memory| ==> |st.memory[b]| == st.sizes[b])
    && (forall d {:trigger st.phase[d]} :: 0 <= d < |st.phase| ==> PhaseOk(st, st.phase[d]))
    && (forall d, i :: (d, i) in st.pending ==> d < |st.phase| && TaskOf(st, d, i))
  }

  ghost predicate PhaseOk(st: State, p: Phase)
    requires |st.sizes| == |st.memory|
  {
    && (!p.Start? ==> p.n >= 1)
    && (p.Preparing? ==> p.block < |st.sizes| && p.i <= st.sizes[p.block] == p.n - 1)
    && (p.Submitting? || p.Joining? ==> p.block < |st.sizes| && p.i <= p.n - 1 <= st.sizes[p.block])
    && (p.Joined? || p.CoresReleased? ==> p.block < |st.sizes| && p.n - 1 <= st.sizes[p.block])
  }

  ghost predicate TaskOf(st: State, d: nat, i: nat)
    requires |st.sizes| == |st.memory| && d < |st.phase|
  {
    (st.phase[d].Submitting? || st.phase[d].Joining?) && st.phase[d].block < |st.memory| && i < |st.memory[st.phase[d].block]| &&
    st.memory[st.phase[d].block][i].Slot?
  }

  ghost predicate Enabled(st: State, step: Step)
    requires Shaped(st)
  {
    step.d < |st.phase| &&
    var p := st.phase[step.d];
    match step
    case Reserve(_) => p.Start?
    case GetArgs(_) => p.Reserved?
    case PrepareSlot(_) => p.Preparing?
    case Submit(_) => p.Submitting? && p.i < p.n - 1
    case RunOwnTask(_) => p.Submitting? && p.i == p.n - 1
    case Join(_) => p.Joining? && (p.i < p.n - 1 ==> st.memory[p.block][p.i].Slot? && !st.memory[p.block][p.i].endLocked)
    case ReleaseTheCores(_) => p.Joined?
    case ReleaseArgs(_) => p.CoresReleased?
    case FinishTask(d, i) => (d, i) in st.pending
  }

  function WithJob(block: seq<Slot>, i: nat, job: Job): seq<Slot>
    requires i < |block|
  {
    block[i := if block[i].Slot? then block[i].(job := Some(job)) else Garbage]
  }

  /** The effect of one atomic step. */
  ghost function Apply(st: State, step: Step): State
    requires Shaped(st) && Enabled(st, step)
  {
    var d := step.d;
    var p := st.phase[d];
    match step
    case Reserve(_) =>
      var n := Grant(st.idle, p.requested);
      st.(idle := TakeCores(st.idle, n), phase := st.phase[d := Reserved(n)])
    case GetArgs(_) =>
      var index := FirstFit(st.sizes, st.available, p.n - 1, 0);
      if index < |st.sizes| then
        st.(available := st.available[index := false], phase := st.phase[d := Submitting(p.n, index, 0)])
      else
        st.(sizes := st.sizes + [p.n - 1], available := st.available + [false], memory := st.memory + [seq(p.n - 1, k => Garbage)],
            phase := st.phase[d := Preparing(p.n, index, 0)])
    case PrepareSlot(_) =>
      if p.i < st.sizes[p.block] then
        st.(memory := st.memory[p.block := st.memory[p.block][p.i := Slot(p.i, true, None)]], phase := st.phase[d := Preparing(p.n, p.block, p.i + 1)])
      else
        st.(phase := st.phase[d := Submitting(p.n, p.block, 0)])
    case Submit(_) =>
      st.(memory := st.memory[p.block := WithJob(st.memory[p.block], p.i, JobOf(st, d, p.n))],
          pending := st.pending + {(d, p.i)}, phase := st.phase[d := Submitting(p.n, p.block, p.i + 1)])
    case RunOwnTask(_) =>
      st.(ran := st.ran[d := st.ran[d] + multiset{Run(Some(JobOf(st, d, p.n)), p.n - 1)}], phase := st.phase[d := Joining(p.n, p.block, 0)])
    case Join(_) =>
      if p.i < p.n - 1 then
        st.(memory := st.memory[p.block := st.memory[p.block][p.i := st.memory[p.block][p.i].(endLocked := true)]],
            phase := st.phase[d := Joining(p.n, p.block, p.i + 1)])
      else
        st.(phase := st.phase[d := Joined(p.n, p.block)])
    case ReleaseTheCores(_) =>
      st.(idle := GiveCores(st.idle, p.n), phase := st.phase[d := CoresReleased(p.n, p.block)])
    case ReleaseArgs(_) =>
      st.(available := st.available[p.block := true], phase := st.phase[d := Done(p.n)])
    case FinishTask(_, i) =>
      var slot := st.memory[p.block][i];
      st.(pending := st.pending - {(d, i)}, ran := st.ran[d := st.ran[d] + multiset{Run(slot.job, slot.coreID)}],
          memory := st.memory[p.block := st.memory[p.block][i := slot.(endLocked := false)]])
  }

  // ----- what every step keeps -----

  /** Slot k of the block of dispatcher d: its end lock is open exactly while a finished task waits to be joined,
      and it holds the dispatcher's job while the task is not finished. */
  ghost predicate SlotOk(st: State, d: nat, n: nat, b: nat, k: nat, submitted: nat, joined: nat)
    requires b < |st.memory| && k < |st.memory[b]| && d < |st.requests|
  {
    IsPrepared(st.memory[b][k], k, k >= submitted || k < joined || (d, k) in st.pending)
    && ((d, k) in st.pending ==> st.memory[b][k].job == Some(JobOf(st, d, n)))
  }

  /** How often dispatcher d and its tasks made the call r: its job only, once with every core id of a finished
      task or of its own. */
  ghost predicate RanOk(st: State, d: nat, n: nat, submitted: nat, own: bool, r: Run)
    requires d < |st.ran| && d < |st.requests| && n >= 1
  {
    st.ran[d][r] ==
      if r.job == Some(JobOf(st, d, n)) && ((r.coreID < submitted && (d, r.coreID) !in st.pending) || (own && r.coreID == n - 1)) then 1 else 0
  }

  /** A dispatcher between getting its block and giving it back. */
  ghost predicate ActiveOk(st: State, d: nat, n: nat, b: nat, submitted: nat, joined: nat, own: bool)
    requires d < |st.ran| == |st.requests| && n >= 1 && b < |st.memory|
  {
    && joined <= submitted <= n - 1 <= |st.memory[b]|
    && (forall k :: 0 <= k < |st.memory[b]| ==> SlotOk(st, d, n, b, k, submitted, joined))
    && (forall k {:trigger (d, k) in st.pending} :: (d, k) in st.pending ==> joined <= k < submitted)
    && (forall r: Run {:trigger RanOk(st, d, n, submitted, own, r)} :: RanOk(st, d, n, submitted, own, r))
  }

  ghost predicate NothingYet(st: State, d: nat)
    requires d < |st.ran|
  {
    st.ran[d] == multiset{} && forall k :: (d, k) !in st.pending
  }

  /** The job of the dispatcher was called exactly once with each of 0..n-1, nothing else was called, and
      nothing is outstanding. */
  ghost predicate AllRanOnce(st: State, d: nat, n: nat)
    requires d < |st.ran| == |st.requests|
  {
    && (forall k :: (d, k) !in st.pending)
    && (forall r: Run {:trigger st.ran[d][r]} :: st.ran[d][r] == if r.job == Some(JobOf(st, d, n)) && r.coreID < n then 1 else 0)
  }

  ghost predicate DispatcherOk(st: State, d: nat)
    requires Shaped(st) && d < |st.phase|
  {
    match st.phase[d]
    case Start(_) => NothingYet(st, d)
    case Reserved(_) => NothingYet(st, d)
    case Preparing(n, b, i) =>
      NothingYet(st, d) && forall k :: 0 <= k < i ==> st.memory[b][k] == Slot(k, true, None)
    case Submitting(n, b, i) => ActiveOk(st, d, n, b, i, 0, false)
    case Joining(n, b, i) => ActiveOk(st, d, n, b, n - 1, i, true)
    case Joined(n, b) => ActiveOk(st, d, n, b, n - 1, n - 1, true)
    case CoresReleased(n, b) => ActiveOk(st, d, n, b, n - 1, n - 1, true)
    case Done(n) => AllRanOnce(st, d, n)
  }

  /** A block is in the pool and clean, or has at most one user. */
  ghost predicate PoolOk(st: State)
    requires Shaped(st)
  {
    && (forall b :: 0 <= b < |st.memory| && st.available[b] ==> Clean(st.memory[b]))
    && (forall d, b: nat {:trigger Uses(st.phase[d], b)} :: 0 <= d < |st.phase| && Uses(st.phase[d], b) ==> b < |st.available| && !st.available[b])
    && (forall d, e, b: nat {:trigger Uses(st.phase[d], b), Uses(st.phase[e], b)} ::
          0 <= d < |st.phase| && 0 <= e < |st.phase| && Uses(st.phase[d], b) && Uses(st.phase[e], b) ==> d == e)
  }

  function Held(p: Phase): nat
  {
    if p.Start? || p.CoresReleased? || p.Done? then 0 else p.n
  }

  function TotalHeld(phases: seq<Phase>): nat
  {
    if phases == [] then 0 else Held(phases[0]) + TotalHeld(phases[1..])
  }

  lemma {:induction false} TotalHeldUpdate(phases: seq<Phase>, d: nat, p: Phase)
    requires d < |phases|
    ensures TotalHeld(phases[d := p]) == TotalHeld(phases) - Held(phases[d]) + Held(p)
  {
    if d > 0 {
      assert phases[d := p][1..] == phases[1..][d - 1 := p];
      TotalHeldUpdate(phases[1..], d - 1, p);
    } else {
      assert phases[d := p][1..] == phases[1..];
    }
  }

  /** Idle cores and outstanding grants add up to the maximum, in the arithmetic of the counter. */
  ghost predicate Conserved(st: State, maxCores: nat)
  {
    st.idle == Wrap(maxCores - TotalHeld(st.phase), UINT32)
  }

  ghost predicate Inv(st: State, maxCores: nat)
  {
    Shaped(st) && PoolOk(st) && Conserved(st, maxCores) && forall d :: 0 <= d < |st.phase| ==> DispatcherOk(st, d)
  }

  // ----- steps, one by one -----

  /** A step of dispatcher d that writes no block but b. */
  ghost predicate Only(st: State, st': State, d: nat, b: nat)
    requires Shaped(st)
  {
    && st'.requests == st.requests && |st'.phase| == |st.phase| == |st'.ran|
    && (forall e :: 0 <= e < |st.phase| && e != d ==> st'.phase[e] == st.phase[e] && st'.ran[e] == st.ran[e])
    && (forall e, k {:trigger (e, k) in st'.pending} {:trigger (e, k) in st.pending} :: e != d ==> ((e, k) in st'.pending <==> (e, k) in st.pending))
    && |st'.memory| == |st'.sizes| == |st'.available| >= |st.memory|
    && (forall c :: 0 <= c < |st.memory| ==> st'.sizes[c] == st.sizes[c])
    && (forall c :: 0 <= c < |st.memory| && c != b ==> st'.memory[c] == st.memory[c])
  }

  ghost predicate NoOtherUser(st: State, d: nat, b: nat)
  {
    forall e {:trigger st.phase[e]} :: 0 <= e < |st.phase| && e != d ==> !Uses(st.phase[e], b)
  }

  lemma ActiveFrame(st: State, st': State, d: nat, n: nat, b: nat, submitted: nat, joined: nat, own: bool)
    requires d < |st.ran| == |st.requests| && n >= 1 && b < |st.memory| && ActiveOk(st, d, n, b, submitted, joined, own)
    requires st'.requests == st.requests && d < |st'.ran| == |st'.requests|
    requires b < |st'.memory| && st'.memory[b] == st.memory[b] && st'.ran[d] == st.ran[d]
    requires forall k {:trigger (d, k) in st'.pending} {:trigger (d, k) in st.pending} :: (d, k) in st'.pending <==> (d, k) in st.pending
    ensures ActiveOk(st', d, n, b, submitted, joined, own)
  {
    forall k: nat {:trigger SlotOk(st', d, n, b, k, submitted, joined)} | k < |st'.memory[b]|
      ensures SlotOk(st', d, n, b, k, submitted, joined)
    {
      assert SlotOk(st, d, n, b, k, submitted, joined);
    }
    forall r: Run {:trigger RanOk(st', d, n, submitted, own, r)} ensures RanOk(st', d, n, submitted, own, r) {
      assert RanOk(st, d, n, submitted, own, r);
    }
  }

  lemma OtherDispatcherOk(st: State, st': State, d: nat, b: nat, e: nat)
    requires Shaped(st) && Shaped(st') && Only(st, st', d, b) && NoOtherUser(st, d, b)
    requires e < |st.phase| && e != d && DispatcherOk(st, e)
    ensures DispatcherOk(st', e)
  {
    var p := st.phase[e];
    match p
    case Start(_) =>
    case Reserved(_) =>
    case Preparing(n, c, i) => assert Uses(p, c);
    case Submitting(n, c, i) =>
      assert Uses(p, c);
      ActiveFrame(st, st', e, n, c, i, 0, false);
    case Joining(n, c, i) =>
      assert Uses(p, c);
      ActiveFrame(st, st', e, n, c, n - 1, i, true);
    case Joined(n, c) =>
      assert Uses(p, c);
      ActiveFrame(st, st', e, n, c, n - 1, n - 1, true);
    case CoresReleased(n, c) =>
      assert Uses(p, c);
      ActiveFrame(st, st', e, n, c, n - 1, n - 1, true);
    case Done(n) =>
      forall r: Run {:trigger st'.ran[e][r]} ensures st'.ran[e][r] == if r.job == Some(JobOf(st', e, n)) && r.coreID < n then 1 else 0 {
        assert st'.ran[e][r] == st.ran[e][r];
      }
  }

  lemma InvFromParts(st: State, st': State, d: nat, b: nat, maxCores: nat)
    requires Inv(st, maxCores) && Shaped(st') && Only(st, st', d, b) && NoOtherUser(st, d, b)
    requires d < |st.phase| && DispatcherOk(st', d) && PoolOk(st') && Conserved(st', maxCores)
    ensures Inv(st', maxCores)
  {
    forall e | 0 <= e < |st'.phase|
      ensures DispatcherOk(st', e)
    {
      if e != d {
        OtherDispatcherOk(st, st', d, b, e);
      }
    }
  }

  /** Writing a block in use, or none, leaves the pool as it was. */
  lemma PoolKept(st: State, st': State, d: nat, b: nat)
    requires Shaped(st) && Shaped(st') && PoolOk(st) && Only(st, st', d, b) && d < |st.phase|
    requires st'.available == st.available
    requires b < |st.available| ==> !st.available[b]
    requires forall c: nat :: Uses(st'.phase[d], c) ==> Uses(st.phase[d], c)
    ensures PoolOk(st')
  {
    forall e, c: nat {:trigger Uses(st'.phase[e], c)} | 0 <= e < |st'.phase| && Uses(st'.phase[e], c)
      ensures Uses(st.phase[e], c)
    {
    }
  }

  lemma ConservedKept(st: State, st': State, d: nat, maxCores: nat)
    requires Shaped(st) && d < |st.phase| && Conserved(st, maxCores)
    requires |st'.phase| == |st.phase| && st'.phase == st.phase[d := st'.phase[d]] && Held(st'.phase[d]) == Held(st.phase[d]) && st'.idle == st.idle
    ensures Conserved(st', maxCores)
  {
    TotalHeldUpdate(st.phase, d, st'.phase[d]);
  }

  lemma StepReserve(st: State, d: nat, maxCores: nat)
    requires Inv(st, maxCores) && Enabled(st, Reserve(d))
    ensures Inv(Apply(st, Reserve(d)), maxCores)
  {
    var st' := Apply(st, Reserve(d));
    var n := Grant(st.idle, st.phase[d].requested);
    TotalHeldUpdate(st.phase, d, Reserved(n));
    var taken: int := n;
    WrapAdd(maxCores - TotalHeld(st.phase), -taken, UINT32);
    assert DispatcherOk(st, d);
    PoolKept(st, st', d, |st.memory|);
    InvFromParts(st, st', d, |st.memory|, maxCores);
  }

  lemma ReleaseConserves(st: State, d: nat, maxCores: nat)
    requires Inv(st, maxCores) && Enabled(st, ReleaseTheCores(d))
    ensures Conserved(Apply(st, ReleaseTheCores(d)), maxCores)
  {
    var p := st.phase[d];
    TotalHeldUpdate(st.phase, d, CoresReleased(p.n, p.block));
    WrapAdd(maxCores - TotalHeld(st.phase), p.n, UINT32);
  }

  lemma ReleaseStaysActive(st: State, d: nat, maxCores: nat)
    requires Inv(st, maxCores) && Enabled(st, ReleaseTheCores(d))
    ensures Shaped(Apply(st, ReleaseTheCores(d))) && DispatcherOk(Apply(st, ReleaseTheCores(d)), d)
  {
    var p := st.phase[d];
    assert DispatcherOk(st, d);
    ActiveFrame(st, Apply(st, ReleaseTheCores(d)), d, p.n, p.block, p.n - 1, p.n - 1, true);
  }

  lemma StepReleaseCores(st: State, d: nat, maxCores: nat)
    requires Inv(st, maxCores) && Enabled(st, ReleaseTheCores(d))
    ensures Inv(Apply(st, ReleaseTheCores(d)), maxCores)
  {
    var st' := Apply(st, ReleaseTheCores(d));
    ReleaseConserves(st, d, maxCores);
    ReleaseStaysActive(st, d, maxCores);
    PoolKept(st, st', d, |st.memory|);
    InvFromParts(st, st', d, |st.memory|, maxCores);
  }

  // What the slots and the history of one dispatcher become when its phase advances.

  lemma CleanBlockActive(st: State, d: nat, n: nat, b: nat)
    requires d < |st.ran| == |st.requests| && n >= 1 && b < |st.memory| && NothingYet(st, d) && Clean(st.memory[b]) && n - 1 <= |st.memory[b]|
    ensures ActiveOk(st, d, n, b, 0, 0, false)
  {
    forall k: nat {:trigger SlotOk(st, d, n, b, k, 0, 0)} | k < |st.memory[b]|
      ensures SlotOk(st, d, n, b, k, 0, 0)
    {
    }
    forall r: Run {:trigger RanOk(st, d, n, 0, false, r)} ensures RanOk(st, d, n, 0, false, r) {
    }
  }

  lemma SubmittedTaskActive(st: State, st': State, d: nat, n: nat, b: nat, i: nat)
    requires d < |st.ran| == |st.requests| && n >= 1 && b < |st.memory| && i < n - 1 && ActiveOk(st, d, n, b, i, 0, false)
    requires st'.requests == st.requests && st'.pending == st.pending + {(d, i)} && st'.ran == st.ran
    requires i < |st.memory[b]| && st'.memory == st.memory[b := WithJob(st.memory[b], i, JobOf(st, d, n))]
    ensures ActiveOk(st', d, n, b, i + 1, 0, false)
  {
    forall k: nat {:trigger SlotOk(st', d, n, b, k, i + 1, 0)} | k < |st'.memory[b]|
      ensures SlotOk(st', d, n, b, k, i + 1, 0)
    {
      assert SlotOk(st, d, n, b, k, i, 0);
    }
    forall r: Run {:trigger RanOk(st', d, n, i + 1, false, r)} ensures RanOk(st', d, n, i + 1, false, r) {
      assert RanOk(st, d, n, i, false, r);
    }
  }

  lemma OwnTaskActive(st: State, st': State, d: nat, n: nat, b: nat)
    requires d < |st.ran| == |st.requests| && n >= 1 && b < |st.memory| && ActiveOk(st, d, n, b, n - 1, 0, false)
    requires st'.requests == st.requests && st'.pending == st.pending && st'.memory == st.memory
    requires st'.ran == st.ran[d := st.ran[d] + multiset{Run(Some(JobOf(st, d, n)), n - 1)}]
    ensures ActiveOk(st', d, n, b, n - 1, 0, true)
  {
    forall k: nat {:trigger SlotOk(st', d, n, b, k, n - 1, 0)} | k < |st'.memory[b]|
      ensures SlotOk(st', d, n, b, k, n - 1, 0)
    {
      assert SlotOk(st, d, n, b, k, n - 1, 0);
    }
    forall r: Run {:trigger RanOk(st', d, n, n - 1, true, r)} ensures RanOk(st', d, n, n - 1, true, r) {
      assert RanOk(st, d, n, n - 1, false, r);
    }
  }

  lemma ReusedBlockActive(st: State, d: nat, maxCores: nat)
    requires Inv(st, maxCores) && Enabled(st, GetArgs(d))
    requires FirstFit(st.sizes, st.available, st.phase[d].n - 1, 0) < |st.sizes|
    ensures Shaped(Apply(st, GetArgs(d))) && DispatcherOk(Apply(st, GetArgs(d)), d)
  {
    var n := st.phase[d].n;
    var b := FirstFit(st.sizes, st.available, n - 1, 0);
    assert DispatcherOk(st, d) && Clean(st.memory[b]);
    CleanBlockActive(Apply(st, GetArgs(d)), d, n, b);
  }

  /** The block found in the pool is clean and nobody else's. */
  lemma StepReuse(st: State, d: nat, maxCores: nat)
    requires Inv(st, maxCores) && Enabled(st, GetArgs(d))
    requires FirstFit(st.sizes, st.available, st.phase[d].n - 1, 0) < |st.sizes|
    ensures Inv(Apply(st, GetArgs(d)), maxCores)
  {
    var st' := Apply(st, GetArgs(d));
    var b := FirstFit(st.sizes, st.available, st.phase[d].n - 1, 0);
    ReusedBlockActive(st, d, maxCores);
    FreshBlockPool(st, st', d, b);
    ConservedKept(st, st', d, maxCores);
    InvFromParts(st, st', d, b, maxCores);
  }

  lemma StepAllocate(st: State, d: nat, maxCores: nat)
    requires Inv(st, maxCores) && Enabled(st, GetArgs(d))
    requires FirstFit(st.sizes, st.available, st.phase[d].n - 1, 0) == |st.sizes|
    ensures Inv(Apply(st, GetArgs(d)), maxCores)
  {
    var st' := Apply(st, GetArgs(d));
    assert DispatcherOk(st, d);
    FreshBlockPool(st, st', d, |st.memory|);
    ConservedKept(st, st', d, maxCores);
    InvFromParts(st, st', d, |st.memory|, maxCores);
  }

  /** Taking a block nobody uses keeps the pool. */
  lemma FreshBlockPool(st: State, st': State, d: nat, b: nat)
    requires Shaped(st) && Shaped(st') && PoolOk(st) && Only(st, st', d, b) && d < |st.phase|
    requires forall c: nat :: Uses(st'.phase[d], c) <==> c == b
    requires b < |st'.available| && !st'.available[b] && (b < |st.available| ==> st.available[b])
    requires |st'.memory| == if b < |st.memory| then |st.memory| else b + 1
    requires b <= |st.memory|
    requires forall c :: 0 <= c < |st.available| && c != b ==> st'.available[c] == st.available[c]
    ensures PoolOk(st') && NoOtherUser(st, d, b)
  {
    forall e {:trigger st.phase[e]} | 0 <= e < |st.phase| && e != d
      ensures !Uses(st.phase[e], b)
    {
    }
  }

  lemma OwnBlock(st: State, d: nat, b: nat)
    requires Shaped(st) && PoolOk(st) && d < |st.phase| && Uses(st.phase[d], b)
    ensures NoOtherUser(st, d, b) && b < |st.available| && !st.available[b]
  {
    forall e {:trigger st.phase[e]} | 0 <= e < |st.phase| && e != d
      ensures !Uses(st.phase[e], b)
    {
      assert Uses(st.phase[e], b) ==> e == d;
    }
  }

  lemma PreparedSlotOk(st: State, d: nat, maxCores: nat)
    requires Inv(st, maxCores) && Enabled(st, PrepareSlot(d))
    ensures Shaped(Apply(st, PrepareSlot(d))) && DispatcherOk(Apply(st, PrepareSlot(d)), d)
  {
    var p := st.phase[d];
    assert DispatcherOk(st, d);
    if p.i == st.sizes[p.block] {
      CleanBlockActive(Apply(st, PrepareSlot(d)), d, p.n, p.block);
    }
  }

  lemma StepPrepareSlot(st: State, d: nat, maxCores: nat)
    requires Inv(st, maxCores) && Enabled(st, PrepareSlot(d))
    ensures Inv(Apply(st, PrepareSlot(d)), maxCores)
  {
    PreparedSlotOk(st, d, maxCores);
    BlockStep(st, Apply(st, PrepareSlot(d)), d, st.phase[d].block, maxCores);
  }

  /** A step in which dispatcher d writes its own block and keeps it and its cores. */
  lemma BlockStep(st: State, st': State, d: nat, b: nat, maxCores: nat)
    requires Inv(st, maxCores) && Shaped(st') && d < |st.phase| && Uses(st.phase[d], b) && Only(st, st', d, b)
    requires DispatcherOk(st', d) && st'.available == st.available && st'.idle == st.idle
    requires st'.phase == st.phase[d := st'.phase[d]] && Held(st'.phase[d]) == Held(st.phase[d])
    requires forall c: nat :: Uses(st'.phase[d], c) ==> c == b
    ensures Inv(st', maxCores)
  {
    OwnBlock(st, d, b);
    PoolKept(st, st', d, b);
    ConservedKept(st, st', d, maxCores);
    InvFromParts(st, st', d, b, maxCores);
  }

  lemma SubmittedOk(st: State, d: nat, maxCores: nat)
    requires Inv(st, maxCores) && Enabled(st, Submit(d))
    ensures Shaped(Apply(st, Submit(d))) && DispatcherOk(Apply(st, Submit(d)), d)
  {
    var p := st.phase[d];
    assert DispatcherOk(st, d) && SlotOk(st, d, p.n, p.block, p.i, p.i, 0);
    SubmittedTaskActive(st, Apply(st, Submit(d)), d, p.n, p.block, p.i);
  }

  lemma StepSubmit(st: State, d: nat, maxCores: nat)
    requires Inv(st, maxCores) && Enabled(st, Submit(d))
    ensures var p, st' := st.phase[d], Apply(st, Submit(d));
            var slot, request := st'.memory[p.block][p.i], st.requests[d];
            slot.Slot? && slot.coreID == p.i && slot.job.Some? && slot.job.value.loop == request.loop && slot.job.value.env == request.env
            && slot.job.value.numCores == p.n && slot.job.value.chunkSize == request.chunkSize && (d, p.i) in st'.pending
    ensures Inv(Apply(st, Submit(d)), maxCores)
  {
    SubmittedOk(st, d, maxCores);
    assert DispatcherOk(st, d) && SlotOk(st, d, st.phase[d].n, st.phase[d].block, st.phase[d].i, st.phase[d].i, 0);
    BlockStep(st, Apply(st, Submit(d)), d, st.phase[d].block, maxCores);
  }

  lemma RanOwnTaskOk(st: State, d: nat, maxCores: nat)
    requires Inv(st, maxCores) && Enabled(st, RunOwnTask(d))
    ensures Shaped(Apply(st, RunOwnTask(d))) && DispatcherOk(Apply(st, RunOwnTask(d)), d)
  {
    var p := st.phase[d];
    assert DispatcherOk(st, d);
    OwnTaskActive(st, Apply(st, RunOwnTask(d)), d, p.n, p.block);
  }

  lemma StepRunOwnTask(st: State, d: nat, maxCores: nat)
    requires Inv(st, maxCores) && Enabled(st, RunOwnTask(d))
    ensures Inv(Apply(st, RunOwnTask(d)), maxCores)
  {
    RanOwnTaskOk(st, d, maxCores);
    BlockStep(st, Apply(st, RunOwnTask(d)), d, st.phase[d].block, maxCores);
  }

  /** An open end lock means the task is over; taking it closes it again. */
  lemma StepJoin(st: State, d: nat, maxCores: nat)
    requires Inv(st, maxCores) && Enabled(st, Join(d)) && st.phase[d].i < st.phase[d].n - 1
    ensures (d, st.phase[d].i) !in st.pending
    ensures Inv(Apply(st, Join(d)), maxCores)
  {
    JoinedSlotOk(st, d, maxCores);
    BlockStep(st, Apply(st, Join(d)), d, st.phase[d].block, maxCores);
  }

  lemma JoinedSlotOk(st: State, d: nat, maxCores: nat)
    requires Inv(st, maxCores) && Enabled(st, Join(d)) && st.phase[d].i < st.phase[d].n - 1
    ensures (d, st.phase[d].i) !in st.pending
    ensures Shaped(Apply(st, Join(d))) && DispatcherOk(Apply(st, Join(d)), d)
  {
    var p := st.phase[d];
    assert DispatcherOk(st, d) && SlotOk(st, d, p.n, p.block, p.i, p.n - 1, p.i);
    JoinedTaskActive(st, Apply(st, Join(d)), d, p.n, p.block, p.i);
  }

  lemma JoinedTaskActive(st: State, st': State, d: nat, n: nat, b: nat, i: nat)
    requires d < |st.ran| == |st.requests| && n >= 1 && b < |st.memory| && i < n - 1 && ActiveOk(st, d, n, b, n - 1, i, true)
    requires i < |st.memory[b]| && st.memory[b][i].Slot? && !st.memory[b][i].endLocked
    requires st'.requests == st.requests && st'.pending == st.pending && st'.ran == st.ran
    requires st'.memory == st.memory[b := st.memory[b][i := st.memory[b][i].(endLocked := true)]]
    ensures ActiveOk(st', d, n, b, n - 1, i + 1, true)
  {
    assert SlotOk(st, d, n, b, i, n - 1, i);
    forall k: nat {:trigger SlotOk(st', d, n, b, k, n - 1, i + 1)} | k < |st'.memory[b]|
      ensures SlotOk(st', d, n, b, k, n - 1, i + 1)
    {
      assert SlotOk(st, d, n, b, k, n - 1, i);
    }
    forall r: Run {:trigger RanOk(st', d, n, n - 1, true, r)} ensures RanOk(st', d, n, n - 1, true, r) {
      assert RanOk(st, d, n, n - 1, true, r);
    }
  }

  lemma StepJoined(st: State, d: nat, maxCores: nat)
    requires Inv(st, maxCores) && Enabled(st, Join(d)) && st.phase[d].i == st.phase[d].n - 1
    ensures Inv(Apply(st, Join(d)), maxCores)
  {
    AllJoinedOk(st, d, maxCores);
    BlockStep(st, Apply(st, Join(d)), d, st.phase[d].block, maxCores);
  }

  lemma AllJoinedOk(st: State, d: nat, maxCores: nat)
    requires Inv(st, maxCores) && Enabled(st, Join(d)) && st.phase[d].i == st.phase[d].n - 1
    ensures Shaped(Apply(st, Join(d))) && DispatcherOk(Apply(st, Join(d)), d)
  {
    var p := st.phase[d];
    assert DispatcherOk(st, d);
    ActiveFrame(st, Apply(st, Join(d)), d, p.n, p.block, p.n - 1, p.n - 1, true);
  }

  /** The block goes back with every end lock held again. */
  lemma StepReleaseArgs(st: State, d: nat, maxCores: nat)
    requires Inv(st, maxCores) && Enabled(st, ReleaseArgs(d))
    ensures Clean(st.memory[st.phase[d].block])
    ensures Inv(Apply(st, ReleaseArgs(d)), maxCores)
  {
    var st' := Apply(st, ReleaseArgs(d));
    var p := st.phase[d];
    var b := p.block;
    assert DispatcherOk(st, d) && Uses(p, b);
    OwnBlock(st, d, b);
    forall k: nat | k < |st.memory[b]|
      ensures IsPrepared(st.memory[b][k], k, true)
    {
      assert SlotOk(st, d, p.n, b, k, p.n - 1, p.n - 1);
    }
    forall r: Run {:trigger st'.ran[d][r]} ensures st'.ran[d][r] == if r.job == Some(JobOf(st', d, p.n)) && r.coreID < p.n then 1 else 0 {
      assert RanOk(st, d, p.n, p.n - 1, true, r);
    }
    forall e, c: nat {:trigger Uses(st'.phase[e], c)} | 0 <= e < |st'.phase| && Uses(st'.phase[e], c)
      ensures Uses(st.phase[e], c) && c != b
    {
    }
    ConservedKept(st, st', d, maxCores);
    InvFromParts(st, st', d, b, maxCores);
  }

  lemma FinishedOk(st: State, d: nat, i: nat, maxCores: nat)
    requires Inv(st, maxCores) && Enabled(st, FinishTask(d, i))
    ensures Shaped(Apply(st, FinishTask(d, i))) && DispatcherOk(Apply(st, FinishTask(d, i)), d)
  {
    var p := st.phase[d];
    var own := p.Joining?;
    assert DispatcherOk(st, d);
    FinishedTaskActive(st, Apply(st, FinishTask(d, i)), d, i, p.n, p.block,
                       if own then p.n - 1 else p.i, if own then p.i else 0, own);
  }

  /** A task makes the call written in its slot, with the core id of the slot, and opens its end lock. */
  lemma StepFinishTask(st: State, d: nat, i: nat, maxCores: nat)
    requires Inv(st, maxCores) && Enabled(st, FinishTask(d, i))
    ensures Inv(Apply(st, FinishTask(d, i)), maxCores)
  {
    var st' := Apply(st, FinishTask(d, i));
    FinishedOk(st, d, i, maxCores);
    assert Uses(st.phase[d], st.phase[d].block);
    assert st.phase[d := st'.phase[d]] == st.phase;
    BlockStep(st, st', d, st.phase[d].block, maxCores);
  }

  lemma FinishedTaskActive(st: State, st': State, d: nat, i: nat, n: nat, b: nat, submitted: nat, joined: nat, own: bool)
    requires d < |st.ran| == |st.requests| && n >= 1 && b < |st.memory| && ActiveOk(st, d, n, b, submitted, joined, own) && (d, i) in st.pending
    requires i < |st.memory[b]| && st.memory[b][i].Slot?
    requires st'.requests == st.requests && st'.pending == st.pending - {(d, i)}
    requires st'.ran == st.ran[d := st.ran[d] + multiset{Run(st.memory[b][i].job, st.memory[b][i].coreID)}]
    requires st'.memory == st.memory[b := st.memory[b][i := st.memory[b][i].(endLocked := false)]]
    ensures ActiveOk(st', d, n, b, submitted, joined, own)
  {
    assert SlotOk(st, d, n, b, i, submitted, joined);
    forall k: nat {:trigger SlotOk(st', d, n, b, k, submitted, joined)} | k < |st'.memory[b]|
      ensures SlotOk(st', d, n, b, k, submitted, joined)
    {
      assert SlotOk(st, d, n, b, k, submitted, joined);
    }
    forall r: Run {:trigger RanOk(st', d, n, submitted, own, r)} ensures RanOk(st', d, n, submitted, own, r) {
      assert RanOk(st, d, n, submitted, own, r);
    }
  }

  // ----- whole runs -----

  lemma StepKeepsInv(st: State, step: Step, maxCores: nat)
    requires Inv(st, maxCores) && Enabled(st, step)
    ensures Inv(Apply(st, step), maxCores)
  {
    match step
    case Reserve(d) => StepReserve(st, d, maxCores);
    case GetArgs(d) =>
      if FirstFit(st.sizes, st.available, st.phase[d].n - 1, 0) < |st.sizes| {
        StepReuse(st, d, maxCores);
      } else {
        StepAllocate(st, d, maxCores);
      }
    case PrepareSlot(d) => StepPrepareSlot(st, d, maxCores);
    case Submit(d) => StepSubmit(st, d, maxCores);
    case RunOwnTask(d) => StepRunOwnTask(st, d, maxCores);
    case Join(d) =>
      if st.phase[d].i < st.phase[d].n - 1 {
        StepJoin(st, d, maxCores);
      } else {
        StepJoined(st, d, maxCores);
      }
    case ReleaseTheCores(d) => StepReleaseCores(st, d, maxCores);
    case ReleaseArgs(d) => StepReleaseArgs(st, d, maxCores);
    case FinishTask(d, i) => StepFinishTask(st, d, i, maxCores);
  }

  /** A run: the dispatchers' and tasks' steps in any order. */
  ghost predicate IsRun(trace: seq<State>, steps: seq<Step>)
  {
    && |trace| == |steps| + 1
    && forall k {:trigger steps[k]} :: 0 <= k < |steps| ==> IsStep(trace[k], steps[k], trace[k + 1])
  }

  ghost predicate IsStep(st: State, step: Step, st': State)
  {
    Shaped(st) && Enabled(st, step) && st' == Apply(st, step)
  }

  lemma InitInv(maxCores: nat, requests: seq<Request>)
    ensures Inv(Init(maxCores, requests), maxCores)
  {
    var st := Init(maxCores, requests);
    AllStartHoldNothing(st.phase);
  }

  lemma {:induction false} AllStartHoldNothing(phases: seq<Phase>)
    requires forall d :: 0 <= d < |phases| ==> phases[d].Start?
    ensures TotalHeld(phases) == 0
  {
    if phases != [] {
      AllStartHoldNothing(phases[1..]);
    }
  }

  lemma {:induction false} RunKeepsInv(trace: seq<State>, steps: seq<Step>, maxCores: nat, requests: seq<Request>, k: nat)
    requires IsRun(trace, steps) && trace[0] == Init(maxCores, requests) && k < |trace|
    ensures Inv(trace[k], maxCores) && trace[k].requests == requests
    decreases k
  {
    if k == 0 {
      InitInv(maxCores, requests);
    } else {
      RunKeepsInv(trace, steps, maxCores, requests, k - 1);
      assert IsStep(trace[k - 1], steps[k - 1], trace[k]);
      StepKeepsInv(trace[k - 1], steps[k - 1], maxCores);
    }
  }

  /** A dispatcher asks for the cores it was called with, and gets no more than that, or one. */
  ghost predicate AskedFor(p: Phase, request: Request)
  {
    if p.Start? then p.requested == request.maxCores else 1 <= p.n && (p.n <= request.maxCores || p.n == 1)
  }

  lemma {:induction false} RunAsksForCores(trace: seq<State>, steps: seq<Step>, maxCores: nat, requests: seq<Request>, k: nat, d: nat)
    requires IsRun(trace, steps) && trace[0] == Init(maxCores, requests) && k < |trace| && d < |requests|
    ensures |trace[k].phase| == |requests| && AskedFor(trace[k].phase[d], requests[d])
    decreases k
  {
    if k > 0 {
      RunAsksForCores(trace, steps, maxCores, requests, k - 1, d);
      StepAsksForCores(trace[k - 1], steps[k - 1], trace[k], requests[d], d);
    }
  }

  lemma StepAsksForCores(st: State, step: Step, st': State, request: Request, d: nat)
    requires IsStep(st, step, st') && d < |st.phase| && AskedFor(st.phase[d], request)
    ensures |st'.phase| == |st.phase| && AskedFor(st'.phase[d], request)
  {
  }

  ghost predicate PastJoin(p: Phase)
  {
    p.Joined? || p.CoresReleased? || p.Done?
  }

  /** Join, under every interleaving: a dispatcher past its join has had the loop it was called with, on the
      environment it was called with, run exactly once with each core id below its number of cores and with
      nothing else, and none of its tasks is outstanding. */
  lemma JoinWaitsForAll(trace: seq<State>, steps: seq<Step>, maxCores: nat, requests: seq<Request>, k: nat, d: nat)
    requires IsRun(trace, steps) && trace[0] == Init(maxCores, requests) && k < |trace|
    requires d < |trace[k].phase| && PastJoin(trace[k].phase[d])
    ensures d < |requests| == |trace[k].ran|
    ensures var n := trace[k].phase[d].n; 1 <= n && (n <= requests[d].maxCores || n == 1)
    ensures forall i :: (d, i) !in trace[k].pending
    ensures forall r :: r in trace[k].ran[d] ==>
              && r.job.Some? && r.coreID < trace[k].phase[d].n
              && r.job.value.loop == requests[d].loop && r.job.value.env == requests[d].env
              && r.job.value.numCores == trace[k].phase[d].n && r.job.value.chunkSize == requests[d].chunkSize
    ensures forall i: nat :: i < trace[k].phase[d].n ==>
              trace[k].ran[d][Run(Some(Job(requests[d].loop, requests[d].env, trace[k].phase[d].n, requests[d].chunkSize)), i)] == 1
  {
    RunKeepsInv(trace, steps, maxCores, requests, k);
    RunAsksForCores(trace, steps, maxCores, requests, k, d);
    var st := trace[k];
    assert DispatcherOk(st, d);
    var p := st.phase[d];
    if !p.Done? {
      forall r: Run {:trigger st.ran[d][r]} ensures st.ran[d][r] == if r.job == Some(JobOf(st, d, p.n)) && r.coreID < p.n then 1 else 0 {
        assert RanOk(st, d, p.n, p.n - 1, true, r);
      }
    }
    assert AllRanOnce(st, d, p.n);
  }

  /** Pool reuse, under every interleaving: a block in the pool is clean, one in use has one user. */
  lemma PoolIsSafe(trace: seq<State>, steps: seq<Step>, maxCores: nat, requests: seq<Request>, k: nat)
    requires IsRun(trace, steps) && trace[0] == Init(maxCores, requests) && k < |trace|
    ensures Shaped(trace[k]) && PoolOk(trace[k])
  {
    RunKeepsInv(trace, steps, maxCores, requests, k);
  }

  /** Conservation, under every interleaving: while the true difference fits the signed counter, it is the counter. */
  lemma CoresAreConserved(trace: seq<State>, steps: seq<Step>, maxCores: nat, requests: seq<Request>, k: nat)
    requires IsRun(trace, steps) && trace[0] == Init(maxCores, requests) && k < |trace|
    ensures trace[k].idle == Wrap(maxCores - TotalHeld(trace[k].phase), UINT32)
    ensures -0x8000_0000 <= maxCores - TotalHeld(trace[k].phase) < 0x8000_0000 ==>
              Signed(trace[k].idle, UINT32) + TotalHeld(trace[k].phase) == maxCores
  {
    RunKeepsInv(trace, steps, maxCores, requests, k);
    if -0x8000_0000 <= maxCores - TotalHeld(trace[k].phase) < 0x8000_0000 {
      SignedOfWrap(maxCores - TotalHeld(trace[k].phase), 0x8000_0000);
    }
  }

  // ----- progress -----

  /** Whatever the others do, a dispatcher that is not done can move, or one of its own tasks can. */
  lemma DispatcherCanMove(st: State, maxCores: nat, d: nat) returns (step: Step)
    requires Inv(st, maxCores) && d < |st.phase| && !st.phase[d].Done?
    ensures Enabled(st, step) && step.d == d
  {
    assert DispatcherOk(st, d);
    match st.phase[d]
    case Start(_) => step := Reserve(d);
    case Reserved(_) => step := GetArgs(d);
    case Preparing(_, _, _) => step := PrepareSlot(d);
    case Submitting(n, b, i) => step := if i < n - 1 then Submit(d) else RunOwnTask(d);
    case Joining(n, b, i) =>
      if i < n - 1 {
        assert SlotOk(st, d, n, b, i, n - 1, i);
      }
      step := if i < n - 1 && (d, i) in st.pending then FinishTask(d, i) else Join(d);
    case Joined(_, _) => step := ReleaseTheCores(d);
    case CoresReleased(_, _) => step := ReleaseArgs(d);
  }

  /** A bound on the steps that a dispatcher still takes, with the tasks it will submit. */
  function StepsLeft(p: Phase): int
  {
    match p
    case Start(requested) => 3 + 4 * if requested < 1 then 1 else requested
    case Reserved(n) => 2 + 4 * n
    case Preparing(n, _, i) => 1 + 4 * n - i
    case Submitting(n, _, i) => 1 + 3 * n - 2 * i
    case Joining(n, _, i) => n + 2 - i
    case Joined(_, _) => 2
    case CoresReleased(_, _) => 1
    case Done(_) => 0
  }

  function AllStepsLeft(phases: seq<Phase>): int
  {
    if phases == [] then 0 else StepsLeft(phases[0]) + AllStepsLeft(phases[1..])
  }

  lemma {:induction false} AllStepsLeftUpdate(phases: seq<Phase>, d: nat, p: Phase)
    requires d < |phases|
    ensures AllStepsLeft(phases[d := p]) == AllStepsLeft(phases) - StepsLeft(phases[d]) + StepsLeft(p)
  {
    if d > 0 {
      assert phases[d := p][1..] == phases[1..][d - 1 := p];
      AllStepsLeftUpdate(phases[1..], d - 1, p);
    } else {
      assert phases[d := p][1..] == phases[1..];
    }
  }

  lemma {:induction false} StepsLeftNonNegative(phases: seq<Phase>)
    requires forall d :: 0 <= d < |phases| ==> StepsLeft(phases[d]) >= 0
    ensures AllStepsLeft(phases) >= 0
  {
    if phases != [] {
      StepsLeftNonNegative(phases[1..]);
    }
  }

  /** Unfinished tasks and the steps left. */
  function Ahead(st: State): int
  {
    AllStepsLeft(st.phase) + |st.pending|
  }

  lemma AheadNonNegative(st: State)
    requires Shaped(st)
    ensures Ahead(st) >= 0
  {
    forall d | 0 <= d < |st.phase|
      ensures StepsLeft(st.phase[d]) >= 0
    {
      assert PhaseOk(st, st.phase[d]);
    }
    StepsLeftNonNegative(st.phase);
  }

  /** What a step does to the phase of its dispatcher and to the tasks. */
  lemma PhaseAfterStep(st: State, step: Step, maxCores: nat)
    requires Inv(st, maxCores) && Enabled(st, step)
    ensures var st', d := Apply(st, step), step.d;
            && d < |st'.phase| && st'.phase == st.phase[d := st'.phase[d]]
            && (step.Submit? ==> st'.pending == st.pending + {(d, st.phase[d].i)} && (d, st.phase[d].i) !in st.pending)
            && (step.FinishTask? ==> st'.pending == st.pending - {(d, step.i)} && (d, step.i) in st.pending && st'.phase[d] == st.phase[d])
            && (!step.Submit? && !step.FinishTask? ==> st'.pending == st.pending)
  {
    assert DispatcherOk(st, step.d);
  }

  lemma PhaseAdvances(st: State, step: Step)
    requires Shaped(st) && Enabled(st, step) && !step.FinishTask?
    ensures var d := step.d;
            d < |Apply(st, step).phase|
            && StepsLeft(Apply(st, step).phase[d]) + 1 + (if step.Submit? then 1 else 0) <= StepsLeft(st.phase[d])
  {
    assert PhaseOk(st, st.phase[step.d]);
  }

  /** Every step brings the end nearer. */
  lemma StepAdvances(st: State, step: Step, maxCores: nat)
    requires Inv(st, maxCores) && Enabled(st, step)
    ensures Ahead(Apply(st, step)) < Ahead(st)
  {
    var d := step.d;
    PhaseAfterStep(st, step, maxCores);
    AllStepsLeftUpdate(st.phase, d, Apply(st, step).phase[d]);
    if !step.FinishTask? {
      PhaseAdvances(st, step);
    }
  }

  /** 4 * max(requested, 1) + 3 for every dispatcher. */
  function TotalSteps(requests: seq<Request>): nat
  {
    if requests == [] then 0 else StepsLeft(Start(requests[0].maxCores)) + TotalSteps(requests[1..])
  }

  lemma {:induction false} StepsAtStart(requests: seq<Request>, phases: seq<Phase>)
    requires |phases| == |requests| && forall d :: 0 <= d < |phases| ==> phases[d] == Start(requests[d].maxCores)
    ensures AllStepsLeft(phases) == TotalSteps(requests)
  {
    if requests != [] {
      StepsAtStart(requests[1..], phases[1..]);
    }
  }

  lemma RunAdvances(st: State, step: Step, st': State, maxCores: nat)
    requires Inv(st, maxCores) && IsStep(st, step, st')
    ensures Ahead(st') < Ahead(st)
  {
    StepAdvances(st, step, maxCores);
  }

  lemma AheadAtStart(maxCores: nat, requests: seq<Request>)
    ensures Ahead(Init(maxCores, requests)) == TotalSteps(requests)
  {
    StepsAtStart(requests, Init(maxCores, requests).phase);
  }

  lemma {:induction false} StepsTaken(trace: seq<State>, steps: seq<Step>, maxCores: nat, requests: seq<Request>, k: nat)
    requires IsRun(trace, steps) && trace[0] == Init(maxCores, requests) && k < |trace|
    ensures k + Ahead(trace[k]) <= TotalSteps(requests)
    decreases k
  {
    if k == 0 {
      AheadAtStart(maxCores, requests);
    } else {
      StepsTaken(trace, steps, maxCores, requests, k - 1);
      RunKeepsInv(trace, steps, maxCores, requests, k - 1);
      RunAdvances(trace[k - 1], steps[k - 1], trace[k], maxCores);
    }
  }

  ghost predicate AllDone(st: State)
  {
    forall d :: 0 <= d < |st.phase| ==> st.phase[d].Done?
  }

  /** No dispatcher waits for ever: every run is finite, and it can be extended until all are done. */
  lemma DispatchersFinish(trace: seq<State>, steps: seq<Step>, maxCores: nat, requests: seq<Request>)
    requires IsRun(trace, steps) && trace[0] == Init(maxCores, requests)
    ensures Shaped(trace[|steps|]) && |steps| <= TotalSteps(requests)
    ensures AllDone(trace[|steps|]) <==> forall step :: !Enabled(trace[|steps|], step)
  {
    var st := trace[|steps|];
    StepsTaken(trace, steps, maxCores, requests, |steps|);
    RunKeepsInv(trace, steps, maxCores, requests, |steps|);
    AheadNonNegative(st);
    if !AllDone(st) {
      var d: nat :| d < |st.phase| && !st.phase[d].Done?;
      var step := DispatcherCanMove(st, maxCores, d);
    }
  }

  // ----- the runtime's methods and the steps of the dispatchers -----

  function PoolOf(st: State): Pool
  {
    Pool(st.sizes, st.available, st.memory)
  }

  /** The dispatcher prepares its remaining slots without being interrupted. */
  ghost function Prepared(st: State, d: nat): (st': State)
    requires Shaped(st) && d < |st.phase| && st.phase[d].Preparing?
    ensures Shaped(st')
    decreases st.phase[d].n - st.phase[d].i
  {
    assert PhaseOk(st, st.phase[d]);
    PrepareShaped(st, d);
    var st1 := Apply(st, PrepareSlot(d));
    if st1.phase[d].Preparing? then Prepared(st1, d) else st1
  }

  lemma PrepareShaped(st: State, d: nat)
    requires Shaped(st) && d < |st.phase| && st.phase[d].Preparing?
    ensures Shaped(Apply(st, PrepareSlot(d)))
  {
    assert PhaseOk(st, st.phase[d]);
  }

  lemma {:induction false} PreparedIsClean(st: State, d: nat)
    requires Shaped(st) && d < |st.phase| && st.phase[d].Preparing?
    requires forall k :: 0 <= k < st.phase[d].i ==> st.memory[st.phase[d].block][k] == Slot(k, true, None)
    ensures var p := st.phase[d];
            Prepared(st, d) == st.(memory := st.memory[p.block := CleanBlock(p.n - 1)], phase := st.phase[d := Submitting(p.n, p.block, 0)])
    decreases st.phase[d].n - st.phase[d].i
  {
    var p := st.phase[d];
    assert PhaseOk(st, p);
    PrepareShaped(st, d);
    var st1 := Apply(st, PrepareSlot(d));
    if p.i < st.sizes[p.block] {
      PreparedIsClean(st1, d);
      assert st1.memory[p.block := CleanBlock(p.n - 1)] == st.memory[p.block := CleanBlock(p.n - 1)];
      assert st1.phase[d := Submitting(p.n, p.block, 0)] == st.phase[d := Submitting(p.n, p.block, 0)];
    } else {
      assert st.memory[p.block] == CleanBlock(p.n - 1);
      assert st.memory[p.block := CleanBlock(p.n - 1)] == st.memory;
    }
  }

  lemma GetArgsShaped(st: State, d: nat)
    requires Shaped(st) && Enabled(st, GetArgs(d)) && NothingYet(st, d)
    ensures Shaped(Apply(st, GetArgs(d)))
  {
    assert PhaseOk(st, st.phase[d]);
  }

  /** Getting a block, step by step but undisturbed, is what the method does in one go. */
  lemma GetArgsIsTakeBlock(st: State, d: nat)
    requires Shaped(st) && Enabled(st, GetArgs(d)) && NothingYet(st, d)
    ensures Shaped(Apply(st, GetArgs(d)))
    ensures var st1 := Apply(st, GetArgs(d));
            PoolOf(if st1.phase[d].Preparing? then Prepared(st1, d) else st1) == TakeBlock(PoolOf(st), st.phase[d].n - 1)
  {
    assert PhaseOk(st, st.phase[d]);
    GetArgsShaped(st, d);
    var st1 := Apply(st, GetArgs(d));
    if st1.phase[d].Preparing? {
      PreparedIsClean(st1, d);
      var n := st.phase[d].n;
      assert st1.memory[|st.memory| := CleanBlock(n - 1)] == st.memory + [CleanBlock(n - 1)];
    }
  }

  /** The other three operations are single steps. */
  lemma StepsAreMethods(st: State, d: nat)
    requires Shaped(st) && d < |st.phase|
    ensures st.phase[d].Start? ==>
              var n := Grant(st.idle, st.phase[d].requested);
              Apply(st, Reserve(d)) == st.(idle := TakeCores(st.idle, n), phase := st.phase[d := Reserved(n)])
    ensures st.phase[d].Joined? ==>
              Apply(st, ReleaseTheCores(d)).idle == GiveCores(st.idle, st.phase[d].n) && PoolOf(Apply(st, ReleaseTheCores(d))) == PoolOf(st)
    ensures st.phase[d].CoresReleased? ==>
              st.phase[d].block < |st.available| && PoolOf(Apply(st, ReleaseArgs(d))) == GiveBlock(PoolOf(st), st.phase[d].block)
  {
    assert PhaseOk(st, st.phase[d]);
  }
}
