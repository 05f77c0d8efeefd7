/** The thread pool (src/threadpool.c) as a step protocol: one dispatcher and any number of workers
    share a slot array that the dispatcher may have to move while workers finish. */
module ThreadPool {

  type Job = nat

  /** The args pointer of a slot. */
  datatype Cell = Free | Held(job: Job)

  /** Where the dispatcher stands for the job it is queueing; n is its slot index. */
  datatype Dispatcher =
    | Idle
    | Search(job: Job, n: nat)
    | SetGate(job: Job, n: nat)
    | Double(job: Job, n: nat)
    | Copy(job: Job, n: nat)
    | Swap(job: Job, n: nat)
    | ClearGate(job: Job, n: nat)
    | Zero(job: Job, n: nat)
    | Fill(job: Job, n: nat)
    | Spawn(job: Job, n: nat)

  /** A worker runs its handler, waits for the gate, clears its slot and frees its arguments. Passed
      exists only when the gate test and the clearing are separate steps. */
  datatype Phase = Running | Finishing | Passed | Cleared | Freed

  datatype Worker = Worker(n: nat, phase: Phase)

  /** pool, pool_len and the gate bit of pool_flags; the block that realloc is filling; the jobs that
      have a thread. snap only records history: the slots as they were when the search began. */
  datatype State = State(
    atomic: bool,
    cells: seq<Cell>,
    block: seq<Cell>,
    pool_len: nat,
    gate: bool,
    pc: Dispatcher,
    jobs: map<Job, Worker>,
    snap: seq<Cell>)

  /** threadpool_init. */
  function Init(atomic: bool): State {
    State(atomic, [Free, Free], [], 2, false, Idle, map[], [])
  }

  /** garbage is what the new upper half happens to contain. */
  datatype Action =
    | Dispatch(job: Job)
    | Advance(garbage: seq<Cell>)
    | Finish(job: Job)
    | PassGate(job: Job)
    | Clear(job: Job)
    | FreeArgs(job: Job)

  predicate Occupies(w: Worker) { w.phase == Running || w.phase == Finishing || w.phase == Passed }

  predicate HasPhase(s: State, j: Job, phase: Phase) { j in s.jobs && s.jobs[j].phase == phase }

  /** May this action happen next, as far as program order and the gate go? */
  predicate Enabled(s: State, a: Action) {
    match a
    case Dispatch(job) => s.pc.Idle? && job !in s.jobs
    case Advance(garbage) => !s.pc.Idle? && (s.pc.Copy? ==> |garbage| == |s.cells|)
    case Finish(j) => HasPhase(s, j, Running)
    case PassGate(j) => !s.atomic && HasPhase(s, j, Finishing) && !s.gate
    case Clear(j) => if s.atomic then HasPhase(s, j, Finishing) && !s.gate else HasPhase(s, j, Passed)
    case FreeArgs(j) => HasPhase(s, j, Cleared)
  }

  /** Does it only touch what it may: slots inside the block, a free slot to fill, no occupied slot to
      zero, and its own slot to clear, so that no copy of the block still holds it? */
  ghost predicate Safe(s: State, a: Action) {
    match a
    case Advance(_) =>
      (match s.pc
       case Search(_, n) => n < s.pool_len ==> n < |s.cells|
       case Copy(_, _) => s.pool_len == 2 * |s.cells|
       case Zero(_, _) =>
         && s.pool_len == |s.cells|
         && forall j :: j in s.jobs && Occupies(s.jobs[j]) ==> s.jobs[j].n < s.pool_len / 2
       case Fill(_, n) => n < |s.cells| && s.cells[n] == Free
       case _ => true)
    case Clear(j) =>
      && (s.atomic ==> !s.gate)
      && j in s.jobs && s.jobs[j].n < |s.cells| && s.cells[s.jobs[j].n] == Held(j)
      && (s.pc.Swap? ==> s.jobs[j].n < |s.block| && s.block[s.jobs[j].n] == Free)
    case _ => true
  }

  function Frees(n: nat): (c: seq<Cell>)
    ensures |c| == n && forall k :: 0 <= k < n ==> c[k] == Free
  {
    seq(n, _ => Free)
  }

  /** One step of the dispatcher (src/threadpool.c:162-229). */
  function Advanced(s: State, garbage: seq<Cell>): State
    requires !s.pc.Idle?
  {
    match s.pc
    case Search(job, n) =>
      if n >= s.pool_len then s.(pc := SetGate(job, n))
      else if n < |s.cells| && s.cells[n] == Free then s.(pc := Fill(job, n))
      else s.(pc := Search(job, n + 1))
    case SetGate(job, n) => s.(gate := true, pc := Double(job, n))
    case Double(job, n) => s.(pool_len := s.pool_len * 2, pc := Copy(job, n))
    case Copy(job, n) => s.(block := s.cells + garbage, pc := Swap(job, n))
    case Swap(job, n) => s.(cells := s.block, block := [], pc := ClearGate(job, n))
    case ClearGate(job, n) => s.(gate := !s.gate, pc := Zero(job, n))
    case Zero(job, n) =>
      var half := s.pool_len / 2;
      if half <= |s.cells| then s.(cells := s.cells[..half] + Frees(|s.cells| - half), pc := Fill(job, n))
      else s.(pc := Fill(job, n))
    case Fill(job, n) =>
      if n < |s.cells| then s.(cells := s.cells[n := Held(job)], pc := Spawn(job, n)) else s
    case Spawn(job, n) => s.(jobs := s.jobs[job := Worker(n, Running)], pc := Idle)
  }

  function SetPhase(s: State, j: Job, phase: Phase): State
    requires j in s.jobs
  {
    s.(jobs := s.jobs[j := s.jobs[j].(phase := phase)])
  }

  function Next(s: State, a: Action): State
    requires Enabled(s, a)
  {
    match a
    case Dispatch(job) => s.(pc := Search(job, 0), snap := s.cells)
    case Advance(garbage) => Advanced(s, garbage)
    case Finish(j) => SetPhase(s, j, Finishing)
    case PassGate(j) => SetPhase(s, j, Passed)
    case Clear(j) =>
      var n := s.jobs[j].n;
      var t := SetPhase(s, j, Cleared);
      if n < |s.cells| then t.(cells := s.cells[n := Free]) else t
    case FreeArgs(j) => SetPhase(s, j, Freed)
  }

  ghost predicate Run(s: State, actions: seq<Action>, last: State)
    decreases |actions|
  {
    if actions == [] then s == last
    else Enabled(s, actions[0]) && Run(Next(s, actions[0]), actions[1..], last)
  }

  // ---- the invariant -----------------------------------------------------------------------------

  /** The part of the block that is meaningful: not the upper half before it is zeroed. */
  function Limit(s: State): nat {
    if s.pc.ClearGate? || s.pc.Zero? then |s.cells| / 2 else |s.cells|
  }

  /** A job in slot k has its thread, or is just about to get one. */
  predicate HolderOf(s: State, j: Job, k: nat) {
    (j in s.jobs && Occupies(s.jobs[j]) && s.jobs[j].n == k) || s.pc == Spawn(j, k)
  }

  /** Gate and sizes, step by step of the dispatcher. */
  predicate Control(s: State) {
    && |s.cells| >= 2 && |s.cells| % 2 == 0
    && (s.gate <==> s.pc.Double? || s.pc.Copy? || s.pc.Swap? || s.pc.ClearGate?)
    && s.pool_len == (if s.pc.Copy? || s.pc.Swap? then 2 * |s.cells| else |s.cells|)
    && (!s.pc.Idle? ==> s.pc.job !in s.jobs)
    && (match s.pc
        case Idle => true
        case Search(_, n) => n <= |s.cells|
        case SetGate(_, n) => n == |s.cells|
        case Double(_, n) => n == |s.cells|
        case Copy(_, n) => n == |s.cells|
        case Swap(_, n) => n == |s.cells| && |s.block| == 2 * n
        case ClearGate(_, n) => n == |s.cells| / 2
        case Zero(_, n) => n == |s.cells| / 2
        case Fill(_, n) => n < |s.cells| && s.cells[n] == Free
        case Spawn(job, n) => n < |s.cells| && s.cells[n] == Held(job))
  }

  /** Every job that occupies a slot has its own: inside the meaningful part, and holding that job. */
  predicate Owned(cells: seq<Cell>, limit: nat, jobs: map<Job, Worker>) {
    limit <= |cells| &&
    forall j :: j in jobs && Occupies(jobs[j]) ==> jobs[j].n < limit && cells[jobs[j].n] == Held(j)
  }

  /** What every state keeps, whether or not the gate test and the clearing are one step. Between copying
      and replacing, the jobs have their slots in both blocks. */
  ghost predicate Coherent(s: State) {
    && Control(s)
    && Owned(s.cells, Limit(s), s.jobs)
    && (s.pc.Swap? ==> Owned(s.block, |s.cells|, s.jobs))
  }

  /** The block that the next search will see. */
  function Slots(s: State): seq<Cell> { if s.pc.Swap? then s.block else s.cells }

  /** The slots that have outlived their job: they still hold one whose worker has cleared them. */
  function Stuck(s: State): set<nat> { StuckIn(s, Slots(s), Limit(s)) }

  function StuckIn(s: State, slots: seq<Cell>, limit: nat): set<nat> {
    set k: nat | k < limit && k < |slots| && slots[k].Held? && !HolderOf(s, slots[k].job, k)
  }

  predicate NoDangling(s: State) { Stuck(s) == {} }

  /** A worker that passed the gate before it closed clears its slot after the block was copied and
      before the copy replaces it. */
  predicate ClearsAtSwap(s: State, a: Action) { a.Clear? && s.pc.Swap? }

  /** How many steps of a run do. */
  function SwapClears(s: State, actions: seq<Action>): nat
    decreases |actions|
  {
    if actions == [] || !Enabled(s, actions[0]) then 0
    else (if ClearsAtSwap(s, actions[0]) then 1 else 0) + SwapClears(Next(s, actions[0]), actions[1..])
  }

  lemma InitCoherent(atomic: bool)
    ensures Coherent(Init(atomic)) && NoDangling(Init(atomic))
  {
  }

  /** In a coherent state a step is safe unless it clears a slot of a block about to be replaced. */
  lemma CoherentSafe(s: State, a: Action)
    requires Coherent(s) && Enabled(s, a)
    ensures Safe(s, a) <==> !ClearsAtSwap(s, a)
  {
  }

  // ---- every step keeps the slots coherent ---------------------------------------------------------

  lemma ScanCoherent(s: State, garbage: seq<Cell>)
    requires Coherent(s) && (s.pc.Search? || s.pc.SetGate? || s.pc.Double?)
    ensures Coherent(Advanced(s, garbage))
  {
  }

  lemma MoveCoherent(s: State, garbage: seq<Cell>)
    requires Coherent(s) && (s.pc.Copy? || s.pc.Swap?) && (s.pc.Copy? ==> |garbage| == |s.cells|)
    ensures Coherent(Advanced(s, garbage))
  {
  }

  lemma OpenCoherent(s: State, garbage: seq<Cell>)
    requires Coherent(s) && (s.pc.ClearGate? || s.pc.Zero?)
    ensures Coherent(Advanced(s, garbage))
  {
  }

  lemma FillCoherent(s: State, garbage: seq<Cell>)
    requires Coherent(s) && (s.pc.Fill? || s.pc.Spawn?)
    ensures Coherent(Advanced(s, garbage))
  {
  }

  lemma ClearCoherent(s: State, j: Job)
    requires Coherent(s) && Enabled(s, Clear(j))
    ensures Coherent(Next(s, Clear(j)))
  {
  }

  lemma DispatchCoherent(s: State, job: Job)
    requires Coherent(s) && Enabled(s, Dispatch(job))
    ensures Coherent(Next(s, Dispatch(job)))
  {
  }

  lemma PhaseCoherent(s: State, j: Job, phase: Phase)
    requires Coherent(s) && j in s.jobs && (Occupies(Worker(0, phase)) <==> Occupies(s.jobs[j]))
    ensures Coherent(SetPhase(s, j, phase))
  {
  }

  lemma StepCoherent(s: State, a: Action)
    requires Coherent(s) && Enabled(s, a)
    ensures Coherent(Next(s, a))
  {
    match a {
      case Advance(garbage) =>
        if s.pc.Search? || s.pc.SetGate? || s.pc.Double? { ScanCoherent(s, garbage); }
        else if s.pc.Copy? || s.pc.Swap? { MoveCoherent(s, garbage); }
        else if s.pc.ClearGate? || s.pc.Zero? { OpenCoherent(s, garbage); }
        else { FillCoherent(s, garbage); }
      case Dispatch(job) => DispatchCoherent(s, job);
      case Finish(j) => PhaseCoherent(s, j, Finishing);
      case PassGate(j) => PhaseCoherent(s, j, Passed);
      case Clear(j) => ClearCoherent(s, j);
      case FreeArgs(j) => PhaseCoherent(s, j, Freed);
    }
  }

  lemma {:induction false} RunCoherent(s: State, actions: seq<Action>, last: State)
    requires Coherent(s) && Run(s, actions, last)
    ensures Coherent(last)
    decreases |actions|
  {
    if actions != [] {
      StepCoherent(s, actions[0]);
      RunCoherent(Next(s, actions[0]), actions[1..], last);
    }
  }

  /** Over every interleaving of either protocol: each job that has not cleared its slot owns one below
      pool_len, no two share one, and whatever happens next is safe unless it clears a slot between the
      copying and the replacing of the block. */
  lemma PoolSafety(atomic: bool, actions: seq<Action>, s: State)
    requires Run(Init(atomic), actions, s)
    ensures forall j :: j in s.jobs && Occupies(s.jobs[j]) ==>
      s.jobs[j].n < |s.cells| && s.jobs[j].n < s.pool_len && s.cells[s.jobs[j].n] == Held(j)
    ensures forall i, j :: i in s.jobs && j in s.jobs && i != j && Occupies(s.jobs[i]) && Occupies(s.jobs[j]) ==>
      s.jobs[i].n != s.jobs[j].n
    ensures forall a :: Enabled(s, a) ==> (Safe(s, a) <==> !ClearsAtSwap(s, a))
  {
    InitCoherent(atomic);
    RunCoherent(Init(atomic), actions, s);
    forall a | Enabled(s, a) ensures Safe(s, a) <==> !ClearsAtSwap(s, a) {
      CoherentSafe(s, a);
    }
  }

  // ---- when slots outlive their jobs ---------------------------------------------------------------

  /** Nothing that Stuck looks at has changed. */
  lemma SameStuck(s: State, t: State)
    requires Limit(t) == Limit(s) <= |Slots(s)| && Limit(s) <= |Slots(t)|
    requires Slots(t)[..Limit(s)] == Slots(s)[..Limit(s)]
    requires forall j, k :: HolderOf(s, j, k) <==> HolderOf(t, j, k)
    ensures Stuck(t) == Stuck(s)
  {
    assert forall k :: 0 <= k < Limit(s) ==> Slots(t)[k] == Slots(t)[..Limit(s)][k] == Slots(s)[..Limit(s)][k];
  }

  lemma WaitStuck(s: State, a: Action)
    requires Coherent(s) && Enabled(s, a) && !a.Advance? && !a.Clear?
    ensures Stuck(Next(s, a)) == Stuck(s)
  {
    SameStuck(s, Next(s, a));
  }

  lemma MoveStuck(s: State, garbage: seq<Cell>)
    requires Coherent(s) && Enabled(s, Advance(garbage)) && !s.pc.Zero? && !s.pc.Fill?
    ensures Stuck(Advanced(s, garbage)) == Stuck(s)
  {
    var t := Advanced(s, garbage);
    if s.pc.Copy? { assert (s.cells + garbage)[..|s.cells|] == s.cells; }
    SameStuck(s, t);
  }

  /** The zeroed half holds nothing, and the filled slot gets its thread next. */
  lemma FillStuck(s: State, garbage: seq<Cell>)
    requires Coherent(s) && (s.pc.Zero? || s.pc.Fill?)
    ensures Stuck(Advanced(s, garbage)) == Stuck(s)
  {
    var t := Advanced(s, garbage);
    assert forall k :: 0 <= k < Limit(s) ==> t.cells[k] == s.cells[k] || (s.pc.Fill? && k == s.pc.n);
    forall k | 0 <= k < Limit(s) && s.cells[k].Held?
      ensures HolderOf(s, s.cells[k].job, k) <==> HolderOf(t, s.cells[k].job, k)
    {
    }
  }

  lemma ClearStuck(s: State, j: Job)
    requires Coherent(s) && Enabled(s, Clear(j)) && !s.pc.Swap?
    ensures Stuck(Next(s, Clear(j))) == Stuck(s)
  {
    var t, n := Next(s, Clear(j)), s.jobs[j].n;
    assert HolderOf(s, j, n);
    assert forall k :: 0 <= k < Limit(s) && k != n ==> t.cells[k] == s.cells[k];
    assert forall i, k :: i != j ==> (HolderOf(s, i, k) <==> HolderOf(t, i, k));
  }

  lemma SwapStuck(s: State, j: Job)
    requires Coherent(s) && Enabled(s, Clear(j)) && s.pc.Swap?
    ensures var n := s.jobs[j].n; n !in Stuck(s) && Stuck(Next(s, Clear(j))) == Stuck(s) + {n}
  {
    var t, n := Next(s, Clear(j)), s.jobs[j].n;
    assert HolderOf(s, j, n) && !HolderOf(t, j, n) && s.block[n] == Held(j);
    assert forall i, k :: i != j ==> (HolderOf(s, i, k) <==> HolderOf(t, i, k));
  }

  /** A slot comes to outlive its job exactly when it is cleared between copying and replacing, and it
      then does so for good: no later step frees it. */
  lemma StepStuck(s: State, a: Action)
    requires Coherent(s) && Enabled(s, a)
    ensures ClearsAtSwap(s, a) ==> s.jobs[a.job].n !in Stuck(s)
    ensures Stuck(Next(s, a)) == Stuck(s) + if ClearsAtSwap(s, a) then {s.jobs[a.job].n} else {}
  {
    match a {
      case Advance(garbage) =>
        if s.pc.Zero? || s.pc.Fill? { FillStuck(s, garbage); } else { MoveStuck(s, garbage); }
      case Clear(j) =>
        if s.pc.Swap? { SwapStuck(s, j); } else { ClearStuck(s, j); }
      case _ => WaitStuck(s, a);
    }
  }

  lemma {:induction false} RunStuck(s: State, actions: seq<Action>, last: State)
    requires Coherent(s) && Run(s, actions, last)
    ensures |Stuck(last)| == |Stuck(s)| + SwapClears(s, actions)
    decreases |actions|
  {
    if actions != [] {
      StepCoherent(s, actions[0]);
      StepStuck(s, actions[0]);
      RunStuck(Next(s, actions[0]), actions[1..], last);
    }
  }

  /** For every run of either protocol: as many slots have outlived their job as workers cleared their
      slot after the block was copied and before it was replaced. So none has if and only if no worker
      did. */
  lemma SlotsOutliveJobsExactly(atomic: bool, actions: seq<Action>, s: State)
    requires Run(Init(atomic), actions, s)
    ensures |Stuck(s)| == SwapClears(Init(atomic), actions)
    ensures NoDangling(s) <==> SwapClears(Init(atomic), actions) == 0
  {
    InitCoherent(atomic);
    RunStuck(Init(atomic), actions, s);
  }

  /** If testing the gate and clearing are one step, the gate keeps every worker out in between. */
  lemma {:induction false} GateKeepsOut(s: State, actions: seq<Action>, last: State)
    requires Coherent(s) && s.atomic && Run(s, actions, last)
    ensures SwapClears(s, actions) == 0
    decreases |actions|
  {
    if actions != [] {
      StepCoherent(s, actions[0]);
      GateKeepsOut(Next(s, actions[0]), actions[1..], last);
    }
  }

  // ---- jobs keep their slots -------------------------------------------------------------------------

  lemma JobsPersist(s: State, a: Action, j: Job)
    requires Coherent(s) && Enabled(s, a) && j in s.jobs
    ensures j in Next(s, a).jobs && Next(s, a).jobs[j].n == s.jobs[j].n
  {
  }

  lemma {:induction false} RunJobsPersist(s: State, actions: seq<Action>, last: State, j: Job)
    requires Coherent(s) && Run(s, actions, last) && j in s.jobs
    ensures j in last.jobs && last.jobs[j].n == s.jobs[j].n
    decreases |actions|
  {
    if actions != [] {
      JobsPersist(s, actions[0], j);
      StepCoherent(s, actions[0]);
      RunJobsPersist(Next(s, actions[0]), actions[1..], last, j);
    }
  }

  /** However often the pool grows in between, a job that occupies a slot finds itself in that same slot
      later, until it clears it. */
  lemma SlotsPersist(atomic: bool, before: seq<Action>, mid: State, after: seq<Action>, last: State, j: Job)
    requires Run(Init(atomic), before, mid) && Run(mid, after, last)
    requires j in mid.jobs && Occupies(mid.jobs[j])
    ensures var n := mid.jobs[j].n;
      && n < |mid.cells| && mid.cells[n] == Held(j)
      && j in last.jobs
      && (Occupies(last.jobs[j]) ==> n < |last.cells| && last.cells[n] == Held(j))
  {
    InitCoherent(atomic);
    RunCoherent(Init(atomic), before, mid);
    RunCoherent(mid, after, last);
    RunJobsPersist(mid, after, last, j);
  }

  // ---- growth --------------------------------------------------------------------------------------

  /** 2, doubled some number of times. */
  predicate IsDoubling(n: nat) { n == 2 || (n > 2 && n % 2 == 0 && IsDoubling(n / 2)) }

  function HeldSlots(cells: seq<Cell>, n: nat): set<nat>
    requires n <= |cells|
  {
    set k: nat | k < n && cells[k].Held?
  }

  lemma {:induction false} AllHeld(cells: seq<Cell>, n: nat)
    requires n <= |cells| && forall k :: 0 <= k < n ==> cells[k].Held?
    ensures |HeldSlots(cells, n)| == n
  {
    if n > 0 {
      AllHeld(cells, n - 1);
      assert HeldSlots(cells, n) == HeldSlots(cells, n - 1) + {n - 1};
    }
  }

  function SlotsOf(jobs: map<Job, Worker>, live: set<Job>): set<nat>
    requires live <= jobs.Keys
  {
    set j | j in live :: jobs[j].n
  }

  lemma {:induction false} SlotsOfSize(jobs: map<Job, Worker>, live: set<Job>)
    requires live <= jobs.Keys
    ensures |SlotsOf(jobs, live)| <= |live|
    decreases live
  {
    if live != {} {
      var j :| j in live;
      SlotsOfSize(jobs, live - {j});
      assert SlotsOf(jobs, live) == SlotsOf(jobs, live - {j}) + {jobs[j].n};
    }
  }

  /** The jobs that need a slot: the one being dispatched, and those whose worker has not cleared its own. */
  function Demand(s: State): set<Job> {
    Live(s) + (if s.pc.Idle? then {} else {s.pc.job})
  }

  function Live(s: State): set<Job> { set j | j in s.jobs && Occupies(s.jobs[j]) }

  /** In no state of the run do more than d jobs need a slot. */
  ghost predicate DemandAtMost(s: State, actions: seq<Action>, d: nat)
    decreases |actions|
  {
    |Demand(s)| <= d &&
    (actions == [] || (Enabled(s, actions[0]) && DemandAtMost(Next(s, actions[0]), actions[1..], d)))
  }

  /** When a job arrives, every held slot is stuck or belongs to a job in demand, which the new one joins. */
  lemma DispatchDemand(s: State, job: Job)
    requires Coherent(s) && s.pc.Idle? && job !in s.jobs
    ensures |HeldSlots(s.cells, |s.cells|)| + 1 <= |Demand(Next(s, Dispatch(job)))| + |Stuck(s)|
  {
    var live := Live(s);
    assert Demand(Next(s, Dispatch(job))) == live + {job};
    HeldOrStuck(s);
    SubsetSize(HeldSlots(s.cells, |s.cells|), SlotsOf(s.jobs, live) + Stuck(s));
    SlotsOfSize(s.jobs, live);
    UnionSize(SlotsOf(s.jobs, live), Stuck(s));
  }

  lemma HeldOrStuck(s: State)
    requires Coherent(s) && s.pc.Idle?
    ensures HeldSlots(s.cells, |s.cells|) <= SlotsOf(s.jobs, Live(s)) + Stuck(s)
  {
    forall k | k in HeldSlots(s.cells, |s.cells|) && k !in Stuck(s) ensures k in SlotsOf(s.jobs, Live(s)) {
      var j := s.cells[k].job;
      assert HolderOf(s, j, k);
      assert j in Live(s);
    }
  }

  lemma UnionSize<T>(a: set<T>, b: set<T>)
    ensures |a + b| <= |a| + |b|
  {
    assert a + b == a + (b - a);
    SubsetSize(b - a, b);
  }

  lemma {:induction false} SubsetSize<T>(a: set<T>, b: set<T>)
    requires a <= b
    ensures |a| <= |b|
    decreases a
  {
    if a != {} {
      var x :| x in a;
      SubsetSize(a - {x}, b - {x});
    }
  }

  /** The search remembers the slots it started from: since then they can only have been freed, and it
      passed only slots that were held. */
  ghost predicate SearchHistory(s: State) {
    s.pc.Search? || s.pc.SetGate? || s.pc.Double? ==>
      && |s.snap| == |s.cells|
      && (forall k :: 0 <= k < |s.cells| ==> s.cells[k] == s.snap[k] || s.cells[k] == Free)
      && (forall k :: 0 <= k < |s.snap| && (s.pc.Search? ==> k < s.pc.n) ==> s.snap[k].Held?)
  }

  lemma StepHistory(s: State, a: Action)
    requires Coherent(s) && Enabled(s, a) && SearchHistory(s)
    ensures SearchHistory(Next(s, a))
  {
  }

  lemma {:induction false} RunHistory(s: State, actions: seq<Action>, last: State)
    requires Coherent(s) && SearchHistory(s) && Run(s, actions, last)
    ensures SearchHistory(last)
    decreases |actions|
  {
    if actions != [] {
      StepCoherent(s, actions[0]);
      StepHistory(s, actions[0]);
      RunHistory(Next(s, actions[0]), actions[1..], last);
    }
  }

  /** When the pool is about to double, every slot is held if and only if none was cleared since the
      search began. */
  lemma DoublesFullExactly(atomic: bool, actions: seq<Action>, s: State)
    requires Run(Init(atomic), actions, s) && s.pc.Double?
    ensures (forall k :: 0 <= k < |s.cells| ==> s.cells[k].Held?) <==> s.cells == s.snap
    ensures |s.snap| == |s.cells| && forall k :: 0 <= k < |s.snap| ==> s.snap[k].Held?
  {
    InitCoherent(atomic);
    RunHistory(Init(atomic), actions, s);
    if forall k :: 0 <= k < |s.cells| ==> s.cells[k].Held? {
      assert forall k :: 0 <= k < |s.cells| ==> s.cells[k] == s.snap[k];
    }
  }

  /** The search and the growth it leads to stay within the demand d. */
  ghost predicate Demanded(s: State, d: nat) {
    && (s.pc.Search? ==> |HeldSlots(s.snap, |s.snap|)| + 1 <= d)
    && (s.pc.SetGate? || s.pc.Double? ==> |s.cells| + 1 <= d)
  }

  ghost predicate Bounded(s: State, d: nat) {
    Demanded(s, d) && (s.pool_len == 2 || s.pool_len <= 2 * (d - 1))
  }

  /** d is the demand and the stuck slots together. */
  lemma StepDemanded(s: State, a: Action, d: nat)
    requires Coherent(s) && Enabled(s, a) && SearchHistory(s) && Demanded(s, d)
    requires |Demand(Next(s, a))| + |Stuck(s)| <= d
    ensures Demanded(Next(s, a), d)
  {
    match a {
      case Dispatch(job) => DispatchDemand(s, job);
      case Advance(garbage) => AdvanceDemanded(s, garbage, d);
      case _ =>
    }
  }

  lemma AdvanceDemanded(s: State, garbage: seq<Cell>, d: nat)
    requires Coherent(s) && Enabled(s, Advance(garbage)) && SearchHistory(s) && Demanded(s, d)
    ensures Demanded(Advanced(s, garbage), d)
  {
    if s.pc.Search? && s.pc.n == s.pool_len { AllHeld(s.snap, |s.snap|); }
  }

  lemma StepBounded(s: State, a: Action, d: nat)
    requires Coherent(s) && Enabled(s, a) && SearchHistory(s) && Bounded(s, d)
    requires |Demand(Next(s, a))| + |Stuck(s)| <= d
    ensures Bounded(Next(s, a), d)
  {
    StepDemanded(s, a, d);
    if a.Advance? && s.pc.Double? {
      assert s.pool_len == |s.cells|;
      assert Next(s, a).pool_len == 2 * s.pool_len;
    } else {
      LengthKept(s, a);
    }
  }

  lemma LengthKept(s: State, a: Action)
    requires Enabled(s, a) && !(a.Advance? && s.pc.Double?)
    ensures Next(s, a).pool_len == s.pool_len
  {
  }

  lemma {:induction false} RunBounded(s: State, actions: seq<Action>, last: State, d: nat)
    requires Coherent(s) && SearchHistory(s) && Bounded(s, d + |Stuck(s)|)
    requires Run(s, actions, last) && DemandAtMost(s, actions, d)
    ensures Bounded(last, d + |Stuck(last)|)
    decreases |actions|
  {
    if actions != [] {
      var a := actions[0];
      var t := Next(s, a);
      StepCoherent(s, a);
      StepStuck(s, a);
      StepHistory(s, a);
      StepBounded(s, a, d + |Stuck(s)|);
      RunBounded(t, actions[1..], last, d);
    }
  }

  lemma StepDoubles(s: State, a: Action)
    requires Enabled(s, a) && IsDoubling(s.pool_len)
    ensures IsDoubling(Next(s, a).pool_len)
  {
    if a.Advance? && s.pc.Double? {
      assert Next(s, a).pool_len == 2 * s.pool_len;
    } else {
      LengthKept(s, a);
    }
  }

  lemma {:induction false} RunDoubles(s: State, actions: seq<Action>, last: State)
    requires IsDoubling(s.pool_len) && Run(s, actions, last)
    ensures IsDoubling(last.pool_len)
    decreases |actions|
  {
    if actions != [] {
      StepDoubles(s, actions[0]);
      RunDoubles(Next(s, actions[0]), actions[1..], last);
    }
  }

  /** The pool only ever doubles, and for every run of either protocol it stays below twice the largest
      demand d and the clears between copying and replacing; below twice the demand alone as long as no
      slot has outlived its job. */
  lemma PoolGrowth(atomic: bool, actions: seq<Action>, s: State, d: nat)
    requires Run(Init(atomic), actions, s) && DemandAtMost(Init(atomic), actions, d)
    ensures IsDoubling(s.pool_len)
    ensures s.pool_len == 2 || s.pool_len <= 2 * (d + SwapClears(Init(atomic), actions) - 1)
    ensures NoDangling(s) ==> s.pool_len == 2 || s.pool_len <= 2 * (d - 1)
  {
    InitCoherent(atomic);
    RunDoubles(Init(atomic), actions, s);
    SlotsOutliveJobsExactly(atomic, actions, s);
    RunBounded(Init(atomic), actions, s, d);
  }

  // ---- what the interleavings can and cannot do ------------------------------------------------------

  lemma {:induction false} RunStep(s: State, actions: seq<Action>, mid: State, a: Action)
    requires Run(s, actions, mid) && Enabled(mid, a)
    ensures Run(s, actions + [a], Next(mid, a))
    decreases |actions|
  {
    if actions == [] {
      assert actions + [a] == [a] && [a][1..] == [];
    } else {
      RunStep(Next(s, actions[0]), actions[1..], mid, a);
      assert (actions + [a])[1..] == actions[1..] + [a];
    }
  }

  /** One more step of a run. */
  lemma Go(s: State, actions: seq<Action>, mid: State, a: Action) returns (more: seq<Action>, next: State)
    requires Run(s, actions, mid) && Enabled(mid, a)
    ensures Run(s, more, next) && next == Next(mid, a)
  {
    RunStep(s, actions, mid, a);
    more, next := actions + [a], Next(mid, a);
  }

  /** The dispatcher has found slot n free: it fills it and starts the worker. */
  lemma TakeSlot(init: State, before: seq<Action>, mid: State) returns (actions: seq<Action>, s: State)
    requires Run(init, before, mid) && mid.pc.Search? && mid.pc.n < |mid.cells| == mid.pool_len
    requires mid.cells[mid.pc.n] == Free
    ensures Run(init, actions, s)
    ensures s == mid.(
      cells := mid.cells[mid.pc.n := Held(mid.pc.job)],
      jobs := mid.jobs[mid.pc.job := Worker(mid.pc.n, Running)],
      pc := Idle)
  {
    actions, s := Go(init, before, mid, Advance([]));
    actions, s := Go(init, actions, s, Advance([]));
    actions, s := Go(init, actions, s, Advance([]));
  }

  lemma OneJob(atomic: bool) returns (actions: seq<Action>, s: State)
    ensures Run(Init(atomic), actions, s) && s.atomic == atomic && !s.gate && s.pool_len == 2
    ensures s.cells == [Held(0), Free] && s.pc == Idle && s.jobs == map[0 := Worker(0, Running)]
  {
    var init := Init(atomic);
    actions, s := Go(init, [], init, Dispatch(0));
    actions, s := TakeSlot(init, actions, s);
  }

  lemma TwoJobs(atomic: bool) returns (actions: seq<Action>, s: State)
    ensures Run(Init(atomic), actions, s) && s.atomic == atomic && !s.gate && s.pool_len == 2
    ensures s.cells == [Held(0), Held(1)] && s.pc == Idle
    ensures s.jobs == map[0 := Worker(0, Running), 1 := Worker(1, Running)]
  {
    var init := Init(atomic);
    actions, s := OneJob(atomic);
    actions, s := Go(init, actions, s, Dispatch(1));
    actions, s := Go(init, actions, s, Advance([]));
    actions, s := TakeSlot(init, actions, s);
  }

  /** The first slot of a full pool has been looked at for a third job, and its worker is done. */
  lemma ThirdJob(atomic: bool) returns (actions: seq<Action>, s: State)
    ensures Run(Init(atomic), actions, s) && s.atomic == atomic && !s.gate && s.pool_len == 2
    ensures s.cells == [Held(0), Held(1)] && s.pc == Search(2, 1)
    ensures s.jobs == map[0 := Worker(0, Finishing), 1 := Worker(1, Running)]
  {
    var init := Init(atomic);
    actions, s := TwoJobs(atomic);
    actions, s := Go(init, actions, s, Dispatch(2));
    actions, s := Go(init, actions, s, Advance([]));
    actions, s := Go(init, actions, s, Finish(0));
  }

  /** The pool can double while a slot is free: one that was held when the search passed it. */
  lemma DoublingWithAFreeSlot(atomic: bool) returns (actions: seq<Action>, s: State)
    ensures Run(Init(atomic), actions, s) && s.pc.Double? && |s.cells| == 2 && s.cells[0] == Free
  {
    var init := Init(atomic);
    actions, s := ThirdJob(atomic);
    if !atomic { actions, s := Go(init, actions, s, PassGate(0)); }
    actions, s := Go(init, actions, s, Clear(0));
    actions, s := Go(init, actions, s, Advance([]));
    actions, s := Go(init, actions, s, Advance([]));
    actions, s := Go(init, actions, s, Advance([]));
  }

  ghost predicate NeverDangles(atomic: bool) {
    forall actions, s :: Run(Init(atomic), actions, s) ==> NoDangling(s)
  }

  /** A worker has passed the open gate when the dispatcher closes it and starts to copy. */
  lemma PassedDuringCopy() returns (actions: seq<Action>, s: State)
    ensures Run(Init(false), actions, s) && !s.atomic && s.gate
    ensures s.cells == [Held(0), Held(1)] && s.block == [Held(0), Held(1), Free, Free]
    ensures s.pc == Swap(2, 2) && s.pool_len == 4
    ensures s.jobs == map[0 := Worker(0, Passed), 1 := Worker(1, Running)]
  {
    var init := Init(false);
    actions, s := ThirdJob(false);
    actions, s := Go(init, actions, s, Advance([]));
    actions, s := Go(init, actions, s, PassGate(0));
    actions, s := Go(init, actions, s, Advance([]));
    actions, s := Go(init, actions, s, Advance([]));
    actions, s := Go(init, actions, s, Advance([]));
    actions, s := Go(init, actions, s, Advance([Free, Free]));
  }

  /** It then clears its slot in the old block, and the copy that replaces the block still names the
      job, whose arguments are freed. */
  lemma SplitCheckDangles() returns (actions: seq<Action>, s: State)
    ensures Run(Init(false), actions, s) && !s.atomic && s.gate && s.pc == ClearGate(2, 2) && s.pool_len == 4
    ensures s.cells == [Held(0), Held(1), Free, Free]
    ensures s.jobs == map[0 := Worker(0, Freed), 1 := Worker(1, Running)]
    ensures Stuck(s) == {0}
  {
    var init := Init(false);
    actions, s := PassedDuringCopy();
    actions, s := Go(init, actions, s, Clear(0));
    actions, s := Go(init, actions, s, Advance([]));
    actions, s := Go(init, actions, s, FreeArgs(0));
    assert Limit(s) == 2 && s.cells[0] == Held(0) && !HolderOf(s, 0, 0);
    assert s.cells[1] == Held(1) && HolderOf(s, 1, 1);
  }

  /** Slots never outlive their jobs if and only if a worker tests the gate and clears its slot in one
      step. The program does it in two. */
  lemma GateTestMustBeAtomic(atomic: bool)
    ensures NeverDangles(atomic) <==> atomic
  {
    if atomic {
      forall actions, s | Run(Init(true), actions, s) ensures NoDangling(s) {
        InitCoherent(true);
        GateKeepsOut(Init(true), actions, s);
        SlotsOutliveJobsExactly(true, actions, s);
      }
    } else {
      var actions, s := SplitCheckDangles();
    }
  }

  // ---- joining runs ----------------------------------------------------------------------------------

  lemma JoinTail<T>(a: seq<T>, b: seq<T>)
    requires a != []
    ensures a + b != [] && (a + b)[0] == a[0] && (a + b)[1..] == a[1..] + b
  {
  }

  lemma {:induction false} JoinRuns(s: State, a: seq<Action>, mid: State, b: seq<Action>, last: State)
    requires Run(s, a, mid) && Run(mid, b, last)
    ensures Run(s, a + b, last)
    decreases |a|
  {
    if a == [] {
      assert a + b == b;
    } else {
      JoinRuns(Next(s, a[0]), a[1..], mid, b, last);
      JoinTail(a, b);
    }
  }

  lemma {:induction false} JoinDemands(s: State, a: seq<Action>, mid: State, b: seq<Action>, d: nat)
    requires Run(s, a, mid) && DemandAtMost(s, a, d) && DemandAtMost(mid, b, d)
    ensures DemandAtMost(s, a + b, d)
    decreases |a|
  {
    if a == [] {
      assert a + b == b;
    } else {
      JoinDemands(Next(s, a[0]), a[1..], mid, b, d);
      JoinTail(a, b);
    }
  }

  /** All jobs a state has seen, and those that have cleared their slot; neither set ever shrinks. */
  function Known(s: State): set<Job> { s.jobs.Keys + (if s.pc.Idle? then {} else {s.pc.job}) }

  function Gone(s: State): set<Job> { set j | j in s.jobs && !Occupies(s.jobs[j]) }

  lemma StepKnown(s: State, a: Action)
    requires Coherent(s) && Enabled(s, a)
    ensures Known(s) <= Known(Next(s, a)) && Gone(s) <= Gone(Next(s, a))
  {
  }

  lemma {:induction false} RunKnown(s: State, actions: seq<Action>, last: State)
    requires Coherent(s) && Run(s, actions, last)
    ensures Known(s) <= Known(last)
    decreases |actions|
  {
    if actions != [] {
      StepCoherent(s, actions[0]);
      StepKnown(s, actions[0]);
      RunKnown(Next(s, actions[0]), actions[1..], last);
    }
  }

  /** The demand of a run is at most the jobs known at its end that were not gone at its start. */
  lemma {:induction false} DemandFromEnds(s: State, actions: seq<Action>, last: State, jobs: set<Job>)
    requires Coherent(s) && Run(s, actions, last) && Known(last) <= jobs + Gone(s)
    ensures DemandAtMost(s, actions, |jobs|)
    decreases |actions|
  {
    RunKnown(s, actions, last);
    DemandKnown(s);
    SubsetSize(Demand(s), jobs);
    if actions != [] {
      StepCoherent(s, actions[0]);
      StepKnown(s, actions[0]);
      DemandFromEnds(Next(s, actions[0]), actions[1..], last, jobs);
    }
  }

  lemma DemandKnown(s: State)
    requires Coherent(s)
    ensures Demand(s) <= Known(s) - Gone(s)
  {
  }
}
