/** The dispatcher's half of src/threadpool.c on its real slot array, and its agreement with the step
    protocol of ThreadPool when no worker interferes. */
module ThreadPoolArray {
  import opened ThreadPool

  function FirstFree(cells: seq<Cell>, i: nat): (r: nat)
    requires i <= |cells|
    ensures i <= r <= |cells| && (r < |cells| ==> cells[r] == Free)
    ensures forall k :: i <= k < r ==> cells[k] != Free
    decreases |cells| - i
  {
    if i == |cells| || cells[i] == Free then i else FirstFree(cells, i + 1)
  }

  /** The slots after threadpool_queue_findspace: doubled with free slots when all were held. */
  function WithSpace(cells: seq<Cell>): (r: seq<Cell>)
    ensures cells <= r
    ensures cells != [] ==> FirstFree(cells, 0) < |r| && r[FirstFree(cells, 0)] == Free
  {
    if FirstFree(cells, 0) < |cells| then cells else cells + Frees(|cells|)
  }

  /** The slots after a job was queued: the lowest free slot holds it, and nothing else changed. */
  function Queued(cells: seq<Cell>, job: Job): seq<Cell>
    requires cells != []
  {
    WithSpace(cells)[FirstFree(cells, 0) := Held(job)]
  }

  class Pool {
    var pool: array<Cell>
    var pool_len: nat
    var gate: bool

    ghost predicate Valid()
      reads this
    {
      pool.Length == pool_len && pool_len > 0 && !gate
    }

    /** threadpool_init. */
    constructor ()
      ensures Valid() && fresh(pool) && pool[..] == [Free, Free]
    {
      pool := new Cell[2](_ => Free);
      pool_len, gate := 2, false;
    }

    /** threadpool_queue_findspace; the allocator is taken not to fail. */
    method FindSpace() returns (n: nat)
      requires Valid()
      modifies this
      ensures Valid() && (pool == old(pool) || fresh(pool))
      ensures n == FirstFree(old(pool[..]), 0) < pool_len
      ensures pool[..] == WithSpace(old(pool[..]))
    {
      n := 0;
      while n < pool_len
        invariant n <= pool_len
        invariant FirstFree(pool[..], 0) == FirstFree(pool[..], n)
      {
        if pool[n] == Free { break; }
        n := n + 1;
      }
      if n >= pool_len {
        gate := true;
        pool_len := pool_len * 2;
        var tmp := Reallocate(pool, pool_len);
        pool := tmp;
        gate := !gate;
        forall k | pool_len / 2 <= k < pool_len {
          pool[k] := Free;
        }
        assert pool[..] == old(pool[..]) + Frees(old(pool_len));
      }
    }

    /** realloc to a larger block: the old slots, then arbitrary bytes. */
    static method Reallocate(slots: array<Cell>, n: nat) returns (tmp: array<Cell>)
      requires slots.Length <= n
      ensures fresh(tmp) && tmp.Length == n && tmp[..slots.Length] == slots[..]
    {
      tmp := new Cell[n];
      forall k | 0 <= k < slots.Length {
        tmp[k] := slots[k];
      }
    }

    /** The slot part of threadpool_queue_cmd, threadpool_queue_init and threadpool_queue_deinit. */
    method Queue(job: Job) returns (n: nat)
      requires Valid()
      modifies this, pool
      ensures Valid() && (pool == old(pool) || fresh(pool))
      ensures n == FirstFree(old(pool[..]), 0)
      ensures pool[..] == Queued(old(pool[..]), job)
    {
      n := FindSpace();
      pool[n] := Held(job);
    }
  }

  // ---- agreement with the step protocol ----------------------------------------------------------

  /** The search alone: from slot i it stops at the first free slot, or at the end. */
  lemma {:induction false} SearchAlone(init: State, before: seq<Action>, s: State)
    returns (actions: seq<Action>, t: State)
    requires Run(init, before, s) && s.pc.Search? && s.pc.n <= |s.cells| == s.pool_len
    ensures Run(init, actions, t)
    ensures t == s.(pc := Search(s.pc.job, FirstFree(s.cells, s.pc.n)))
    decreases |s.cells| - s.pc.n
  {
    if s.pc.n == |s.cells| || s.cells[s.pc.n] == Free {
      actions, t := before, s;
    } else {
      actions, t := Go(init, before, s, Advance([]));
      actions, t := SearchAlone(init, actions, t);
    }
  }

  /** Growing, up to the new block. */
  lemma MoveAlone(init: State, before: seq<Action>, s: State) returns (actions: seq<Action>, t: State)
    requires Run(init, before, s) && s.pc.Search? && s.pc.n == |s.cells| == s.pool_len > 0 && !s.gate
    ensures Run(init, actions, t)
    ensures t == s.(cells := s.cells + Frees(|s.cells|), block := [], pool_len := 2 * |s.cells|,
                    gate := true, pc := ClearGate(s.pc.job, s.pc.n))
  {
    actions, t := Go(init, before, s, Advance([]));
    actions, t := Go(init, actions, t, Advance([]));
    actions, t := Go(init, actions, t, Advance([]));
    actions, t := Go(init, actions, t, Advance(Frees(|s.cells|)));
    actions, t := Go(init, actions, t, Advance([]));
  }

  /** Growing: the two remaining steps, opening the gate and zeroing the upper half. */
  lemma GrowAlone(init: State, before: seq<Action>, s: State) returns (actions: seq<Action>, t: State)
    requires Run(init, before, s) && s.pc.Search? && s.pc.n == |s.cells| == s.pool_len > 0 && !s.gate
    ensures Run(init, actions, t)
    ensures t == s.(cells := s.cells + Frees(|s.cells|), block := [], pool_len := 2 * |s.cells|,
                    pc := Fill(s.pc.job, s.pc.n))
  {
    actions, t := MoveAlone(init, before, s);
    actions, t := Go(init, actions, t, Advance([]));
    actions, t := Go(init, actions, t, Advance([]));
    assert (s.cells + Frees(|s.cells|))[..|s.cells|] == s.cells;
  }

  lemma StartAlone(init: State, before: seq<Action>, s: State) returns (actions: seq<Action>, t: State)
    requires Run(init, before, s) && s.pc.Fill? && s.pc.n < |s.cells|
    ensures Run(init, actions, t)
    ensures t == s.(
      cells := s.cells[s.pc.n := Held(s.pc.job)],
      jobs := s.jobs[s.pc.job := Worker(s.pc.n, Running)],
      pc := Idle)
  {
    actions, t := Go(init, before, s, Advance([]));
    actions, t := Go(init, actions, t, Advance([]));
  }

  /** A dispatcher that runs undisturbed does to the protocol's slots what Queue does to the array. */
  lemma DispatchAlone(s: State, job: Job) returns (actions: seq<Action>, t: State)
    requires Coherent(s) && s.pc.Idle? && job !in s.jobs
    ensures Run(s, actions, t) && Coherent(t) && t.pc.Idle? && Stuck(t) == Stuck(s)
    ensures t.cells == Queued(s.cells, job)
    ensures t.jobs == s.jobs[job := Worker(FirstFree(s.cells, 0), Running)]
  {
    actions, t := Go(s, [], s, Dispatch(job));
    actions, t := SearchAlone(s, actions, t);
    if t.pc.n < |t.cells| {
      actions, t := TakeSlot(s, actions, t);
    } else {
      actions, t := GrowAlone(s, actions, t);
      actions, t := StartAlone(s, actions, t);
    }
    RunCoherent(s, actions, t);
    StartedAlone(s, job, t);
  }

  lemma StartedAlone(s: State, job: Job, t: State)
    requires Coherent(s) && s.pc.Idle? && t.pc.Idle? && job !in s.jobs
    requires t.cells == Queued(s.cells, job) && t.jobs == s.jobs[job := Worker(FirstFree(s.cells, 0), Running)]
    ensures Stuck(t) == Stuck(s)
  {
    var n := FirstFree(s.cells, 0);
    assert HolderOf(t, job, n);
    assert forall k :: 0 <= k < |s.cells| && k != n ==> t.cells[k] == s.cells[k];
    assert forall k :: |s.cells| <= k < |t.cells| && k != n ==> t.cells[k] == Free;
    assert forall j, k :: k != n ==> (HolderOf(s, j, k) <==> HolderOf(t, j, k));
  }

  // ---- growing beyond the demand -------------------------------------------------------------------

  /** The growth that left slot 0 stuck goes on: the third job gets slot 2. */
  lemma StuckSlotStays() returns (actions: seq<Action>, s: State)
    ensures Run(Init(false), actions, s) && Coherent(s) && s.pc.Idle? && Stuck(s) == {0}
    ensures s.cells == [Held(0), Held(1), Held(2), Free] && Known(s) == {0, 1, 2} && Gone(s) == {0}
  {
    var init := Init(false);
    actions, s := SplitCheckDangles();
    InitCoherent(false);
    RunCoherent(init, actions, s);
    var more, t := Go(s, [], s, Advance([]));
    more, t := Go(s, more, t, Advance([]));
    more, t := StartAlone(s, more, t);
    JoinRuns(init, actions, s, more, t);
    RunCoherent(s, more, t);
    SlotZeroStuck(t);
    actions, s := actions + more, t;
  }

  lemma SlotZeroStuck(s: State)
    requires s.pc.Idle? && s.cells == [Held(0), Held(1), Held(2), Free]
    requires s.jobs == map[0 := Worker(0, Freed), 1 := Worker(1, Running), 2 := Worker(2, Running)]
    ensures Stuck(s) == {0} && Known(s) == {0, 1, 2} && Gone(s) == {0}
  {
    assert !HolderOf(s, 0, 0) && HolderOf(s, 1, 1) && HolderOf(s, 2, 2);
  }

  /** Two more jobs fill the pool and make it grow again, while only four have not cleared their slot. */
  lemma TwoMoreJobs(s: State) returns (actions: seq<Action>, t: State)
    requires Coherent(s) && s.pc.Idle? && Known(s) == {0, 1, 2} && Gone(s) == {0}
    requires s.cells == [Held(0), Held(1), Held(2), Free]
    ensures Run(s, actions, t) && t.pool_len == 8 && Known(t) == {0, 1, 2, 3, 4} && Stuck(t) == Stuck(s)
  {
    assert s.cells[3] == Free && forall k :: 0 <= k < 3 ==> s.cells[k].Held?;
    var third, mid := DispatchAlone(s, 3);
    assert mid.cells == [Held(0), Held(1), Held(2), Held(3)];
    assert forall k :: 0 <= k < 4 ==> mid.cells[k].Held?;
    var fourth;
    fourth, t := DispatchAlone(mid, 4);
    JoinRuns(s, third, mid, fourth, t);
    actions := third + fourth;
  }

  /** The bound by the demand alone is false of the two-step protocol: with never more than four jobs in
      demand, and one slot stuck, the pool grows to 8. */
  lemma StuckSlotCosts() returns (actions: seq<Action>, s: State)
    ensures Run(Init(false), actions, s) && DemandAtMost(Init(false), actions, 4)
    ensures s.pool_len == 8 == 2 * (4 + SwapClears(Init(false), actions) - 1)
  {
    var before, mid := StuckSlotStays();
    var after, last := TwoMoreJobs(mid);
    InitCoherent(false);
    FourInDemand(before, mid, after, last);
    JoinRuns(Init(false), before, mid, after, last);
    JoinDemands(Init(false), before, mid, after, 4);
    actions, s := before + after, last;
    SlotsOutliveJobsExactly(false, actions, s);
  }

  lemma FourInDemand(before: seq<Action>, mid: State, after: seq<Action>, last: State)
    requires Run(Init(false), before, mid) && Run(mid, after, last) && Coherent(mid)
    requires Known(mid) == {0, 1, 2} && Gone(mid) == {0} && Known(last) == {0, 1, 2, 3, 4}
    ensures DemandAtMost(Init(false), before, 4) && DemandAtMost(mid, after, 4)
  {
    InitCoherent(false);
    var first, later := {0, 1, 2, 3}, {1, 2, 3, 4};
    FourJobs(0, 1, 2, 3);
    FourJobs(1, 2, 3, 4);
    DemandFromEnds(Init(false), before, mid, first);
    DemandFromEnds(mid, after, last, later);
  }

  lemma FourJobs(i: Job, j: Job, k: Job, l: Job)
    requires i < j < k < l
    ensures |{i, j, k, l}| == 4
  {
    assert {i, j, k, l} == {i, j, k} + {l};
  }
}
