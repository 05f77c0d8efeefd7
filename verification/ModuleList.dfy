/** The list of loaded modules and its counter (src/modules.c:226-376), with the effects that the
    init and deinit workers have on it (src/threadpool.c:111-117, src/threadpool.c:149-153).
    Slots are identified by their index. */
module ModuleList {

  /** A slot is a null pointer, or a module whose init runs, that is ready, or whose deinit is queued. */
  datatype Slot = Empty | Initialising | Ready | Unloading

  /** loaded[..loaded_len], loaded_use, how many inits failed so far, and whether the start-up scan of
      the module directory has begun. */
  datatype Modules = Modules(loaded: seq<Slot>, loaded_use: int, failed: nat, scanned: bool)

  function Occupied(s: seq<Slot>, n: nat): (c: nat)
    requires n <= |s|
    ensures c <= n
  {
    if n == 0 then 0 else Occupied(s, n - 1) + (if s[n - 1] != Empty then 1 else 0)
  }

  function Leaving(s: seq<Slot>, n: nat): (c: nat)
    requires n <= |s|
  {
    if n == 0 then 0 else Leaving(s, n - 1) + (if s[n - 1] == Unloading then 1 else 0)
  }

  function Start(): Modules { Modules(seq(6, _ => Empty), 0, 0, false) }

  /** The array is doubled when the counter says it is nearly full. */
  function Grown(m: Modules): Modules {
    if m.loaded_use + 1 >= |m.loaded| then m.(loaded := m.loaded + seq(|m.loaded|, _ => Empty)) else m
  }

  function FirstFree(s: seq<Slot>, i: nat): (r: nat)
    requires i <= |s|
    ensures i <= r <= |s| && (r < |s| ==> s[r] == Empty)
    ensures forall k :: i <= k < r ==> s[k] != Empty
    decreases |s| - i
  {
    if i == |s| || s[i] == Empty then i else FirstFree(s, i + 1)
  }

  /** No slot is free after growing: modules_loadmod stops the program. */
  predicate SanityFails(m: Modules) {
    FirstFree(Grown(m).loaded, 0) == |Grown(m).loaded|
  }

  function Loaded(m: Modules): Modules
    requires !SanityFails(m)
  {
    var g := Grown(m);
    g.(loaded := g.loaded[FirstFree(g.loaded, 0) := Initialising], loaded_use := g.loaded_use + 1)
  }

  // ---- runs ----------------------------------------------------------------------------------

  /** Unload is what the directory watcher does for a changed or deleted file: modules_unloadmod with
      wait set, taken to join. modules_rescanall begins with Scan when nothing counts as loaded, and else
      with UnloadAll; it does so once, and may follow loads by the watcher. modules_unloadall lets every
      running worker finish and then queues one deinit for each module without waiting; UnloadDone is the
      later effect of such a deinit. */
  datatype Event =
    | Load
    | InitOk(i: nat)
    | InitFails(i: nat)
    | Unload(i: nat)
    | Scan
    | UnloadAll
    | UnloadDone(i: nat)

  /** No init and no deinit is under way. */
  predicate Quiet(m: Modules) {
    forall k :: 0 <= k < |m.loaded| ==> m.loaded[k] == Empty || m.loaded[k] == Ready
  }

  predicate Enabled(m: Modules, e: Event) {
    match e
    case Load => !SanityFails(m)
    case InitOk(i) => i < |m.loaded| && m.loaded[i] == Initialising
    case InitFails(i) => i < |m.loaded| && m.loaded[i] == Initialising
    case Unload(i) => i < |m.loaded| && m.loaded[i] == Ready
    case Scan => !m.scanned && m.loaded_use <= 0
    case UnloadAll => !m.scanned && m.loaded_use > 0 && Quiet(m)
    case UnloadDone(i) => i < |m.loaded| && m.loaded[i] == Unloading
  }

  /** The slots after modules_unloadmod was called for each module. */
  function AllLeaving(s: seq<Slot>): seq<Slot> {
    seq(|s|, i requires 0 <= i < |s| => if s[i] == Empty then Empty else Unloading)
  }

  function Step(m: Modules, e: Event): Modules
    requires Enabled(m, e)
  {
    match e
    case Load => Loaded(m)
    case InitOk(i) => m.(loaded := m.loaded[i := Ready])
    // a failed init clears its slot but leaves the counter alone
    case InitFails(i) => m.(loaded := m.loaded[i := Empty], failed := m.failed + 1)
    case Unload(i) => m.(loaded := m.loaded[i := Empty], loaded_use := m.loaded_use - 1)
    case Scan => m.(scanned := true)
    case UnloadAll =>
      m.(loaded := AllLeaving(m.loaded), loaded_use := m.loaded_use - Occupied(m.loaded, |m.loaded|), scanned := true)
    case UnloadDone(i) => m.(loaded := m.loaded[i := Empty])
  }

  ghost predicate Run(m: Modules, events: seq<Event>, last: Modules)
    decreases |events|
  {
    if events == [] then m == last
    else Enabled(m, events[0]) && Run(Step(m, events[0]), events[1..], last)
  }

  /** The counter is the occupied slots plus the failed inits, less the unloads still under way. */
  ghost predicate Consistent(m: Modules) {
    && |m.loaded| > 1
    && m.loaded_use == Occupied(m.loaded, |m.loaded|) + m.failed - Leaving(m.loaded, |m.loaded|)
  }

  lemma {:induction false} CountUpdate(s: seq<Slot>, n: nat, i: nat, v: Slot)
    requires n <= |s| && i < |s|
    ensures Occupied(s[i := v], n) == Occupied(s, n)
      + (if i < n then (if v != Empty then 1 else 0) - (if s[i] != Empty then 1 else 0) else 0)
    ensures Leaving(s[i := v], n) == Leaving(s, n)
      + (if i < n then (if v == Unloading then 1 else 0) - (if s[i] == Unloading then 1 else 0) else 0)
  {
    if n > 0 { CountUpdate(s, n - 1, i, v); }
  }

  lemma {:induction false} CountMore(s: seq<Slot>, more: seq<Slot>, n: nat)
    requires n <= |s + more| && forall k :: 0 <= k < |more| ==> more[k] == Empty
    ensures Occupied(s + more, n) == Occupied(s, if n < |s| then n else |s|)
    ensures Leaving(s + more, n) == Leaving(s, if n < |s| then n else |s|)
  {
    if n > 0 { CountMore(s, more, n - 1); }
  }

  lemma {:induction false} FullCount(s: seq<Slot>, n: nat)
    requires n <= |s|
    ensures Occupied(s, n) == n <==> forall k :: 0 <= k < n ==> s[k] != Empty
  {
    if n > 0 { FullCount(s, n - 1); }
  }

  lemma {:induction false} CountLeaving(s: seq<Slot>, n: nat)
    requires n <= |s|
    ensures Occupied(AllLeaving(s), n) == Leaving(AllLeaving(s), n) == Occupied(s, n)
  {
    if n > 0 { CountLeaving(s, n - 1); }
  }

  lemma {:induction false} NoneLeaving(s: seq<Slot>, n: nat)
    requires n <= |s| && forall k :: 0 <= k < n ==> s[k] != Unloading
    ensures Leaving(s, n) == 0
  {
    if n > 0 { NoneLeaving(s, n - 1); }
  }

  lemma GrownConsistent(m: Modules)
    requires Consistent(m)
    ensures Consistent(Grown(m))
    ensures Grown(m).loaded_use + 1 < |Grown(m).loaded| || |Grown(m).loaded| == 2 * |m.loaded|
  {
    var more: seq<Slot> := seq(|m.loaded|, _ => Empty);
    CountMore(m.loaded, more, |m.loaded + more|);
  }

  lemma StepConsistent(m: Modules, e: Event)
    requires Consistent(m) && Enabled(m, e)
    ensures Consistent(Step(m, e))
  {
    match e {
      case Load =>
        GrownConsistent(m);
        var g := Grown(m);
        CountUpdate(g.loaded, |g.loaded|, FirstFree(g.loaded, 0), Initialising);
      case InitOk(i) => CountUpdate(m.loaded, |m.loaded|, i, Ready);
      case InitFails(i) => CountUpdate(m.loaded, |m.loaded|, i, Empty);
      case Unload(i) => CountUpdate(m.loaded, |m.loaded|, i, Empty);
      case Scan =>
      case UnloadAll =>
        CountLeaving(m.loaded, |m.loaded|);
        NoneLeaving(m.loaded, |m.loaded|);
      case UnloadDone(i) => CountUpdate(m.loaded, |m.loaded|, i, Empty);
    }
  }

  lemma StartConsistent()
    ensures Consistent(Start())
  {
    var s := Start().loaded;
    FullCount(s, 6);
    CountMore([], s, 6);
    assert [] + s == s;
  }

  lemma {:induction false} RunConsistent(m: Modules, events: seq<Event>, last: Modules)
    requires Consistent(m) && Run(m, events, last)
    ensures Consistent(last)
    decreases |events|
  {
    if events != [] {
      StepConsistent(m, events[0]);
      RunConsistent(Step(m, events[0]), events[1..], last);
    }
  }

  /** When the sanity check of modules_loadmod fails, for every reachable state: the unloads under way
      outweigh the failed inits enough to fill an array that the counter calls half empty. */
  lemma SanityFailsExactly(events: seq<Event>, m: Modules)
    requires Run(Start(), events, m)
    ensures SanityFails(m) <==>
      m.loaded_use + 1 < |m.loaded|
      && m.loaded_use + Leaving(m.loaded, |m.loaded|) == |m.loaded| + m.failed
  {
    StartConsistent();
    RunConsistent(Start(), events, m);
    FullCount(m.loaded, |m.loaded|);
    if m.loaded_use + 1 >= |m.loaded| {
      assert Grown(m).loaded[|m.loaded|] == Empty;
    }
  }

  ghost predicate Waits(events: seq<Event>) {
    forall k :: 0 <= k < |events| ==> !events[k].UnloadAll?
  }

  lemma {:induction false} WaitingLeavesNone(m: Modules, events: seq<Event>, last: Modules)
    requires Run(m, events, last) && Waits(events)
    requires forall k :: 0 <= k < |m.loaded| ==> m.loaded[k] != Unloading
    ensures forall k :: 0 <= k < |last.loaded| ==> last.loaded[k] != Unloading
    decreases |events|
  {
    if events != [] {
      assert !events[0].UnloadAll?;
      WaitingLeavesNone(Step(m, events[0]), events[1..], last);
    }
  }

  /** Unless the start-up scan finds modules to unload, the counter is exact and the sanity failure is
      unreachable: the watcher's own unloads wait. */
  lemma WaitingUnloadsAreSafe(events: seq<Event>, m: Modules)
    requires Run(Start(), events, m) && Waits(events)
    ensures m.loaded_use == Occupied(m.loaded, |m.loaded|) + m.failed
    ensures !SanityFails(m)
  {
    StartConsistent();
    RunConsistent(Start(), events, m);
    WaitingLeavesNone(Start(), events, m);
    NoneLeaving(m.loaded, |m.loaded|);
    SanityFailsExactly(events, m);
  }

  // ---- without waiting ---------------------------------------------------------------------------

  lemma {:induction false} RunAppend(m: Modules, a: seq<Event>, mid: Modules, b: seq<Event>, last: Modules)
    requires Run(m, a, mid) && Run(mid, b, last)
    ensures Run(m, a + b, last)
    decreases |a|
  {
    if a == [] {
      assert a + b == b;
    } else {
      RunAppend(Step(m, a[0]), a[1..], mid, b, last);
      assert (a + b)[1..] == a[1..] + b;
    }
  }

  /** The watcher has loaded k modules and their inits are done. */
  function Watched(k: nat): Modules
    requires k <= 5
  {
    Modules(seq(6, i => if i < k then Ready else Empty), k, 0, false)
  }

  function Loads(k: nat): seq<Event> {
    if k == 0 then [] else Loads(k - 1) + [Load, InitOk(k - 1)]
  }

  lemma OneMoreLoad(k: nat)
    requires k < 5
    ensures Run(Watched(k), [Load, InitOk(k)], Watched(k + 1))
  {
    var m := Watched(k);
    assert Grown(m) == m;
    assert m.loaded[k] == Empty && FirstFree(m.loaded, 0) == k;
    var a := Step(m, Load);
    var b := Step(a, InitOk(k));
    assert b.loaded == Watched(k + 1).loaded;
    assert Run(b, [], Watched(k + 1));
    assert [Load, InitOk(k)][1..] == [InitOk(k)] && [InitOk(k)][1..] == [];
  }

  lemma {:induction false} WatchedIsReached(k: nat)
    requires k <= 5
    ensures Run(Start(), Loads(k), Watched(k))
  {
    if k == 0 {
      assert Start().loaded == Watched(0).loaded;
    } else {
      WatchedIsReached(k - 1);
      OneMoreLoad(k - 1);
      RunAppend(Start(), Loads(k - 1), Watched(k - 1), [Load, InitOk(k - 1)], Watched(k));
    }
  }

  /** Five deinits are queued and the first module of the scan is loaded: six slots are taken, one counts. */
  function Rescanned(): Modules {
    Modules([Unloading, Unloading, Unloading, Unloading, Unloading, Initialising], 1, 0, true)
  }

  lemma RescanLoads()
    ensures Run(Watched(5), [UnloadAll, Load], Rescanned())
  {
    var m := Watched(5);
    assert m.loaded[5] == Empty && forall k :: 0 <= k < 5 ==> m.loaded[k] == Ready;
    assert m.loaded == [Ready, Ready, Ready, Ready, Ready, Empty];
    FiveOccupied(m.loaded);
    var a := Step(m, UnloadAll);
    assert a.loaded == [Unloading, Unloading, Unloading, Unloading, Unloading, Empty];
    assert Grown(a) == a && FirstFree(a.loaded, 0) == 5;
    var b := Step(a, Load);
    assert b == Rescanned() && Run(b, [], Rescanned());
    assert [UnloadAll, Load][1..] == [Load] && [Load][1..] == [];
  }

  lemma FiveOccupied(s: seq<Slot>)
    requires |s| == 6 && s[5] == Empty && forall k :: 0 <= k < 5 ==> s[k] != Empty
    ensures Occupied(s, 6) == 5
  {
    FullCount(s, 5);
  }

  /** The sanity failure is reachable: the watcher loads five modules before the start-up scan, which
      unloads them without waiting, loads one module, and fails on the next. */
  lemma SanityFailureIsReachable()
    ensures Run(Start(), Loads(5) + [UnloadAll, Load], Rescanned()) && SanityFails(Rescanned())
  {
    WatchedIsReached(5);
    RescanLoads();
    RunAppend(Start(), Loads(5), Watched(5), [UnloadAll, Load], Rescanned());
    assert Grown(Rescanned()) == Rescanned();
  }

  // ---- the program -----------------------------------------------------------------------------

  class ModuleArray {
    var loaded: array<Slot>
    var loaded_len: nat
    var loaded_use: int
    ghost var failed: nat
    ghost var scanned: bool

    ghost predicate Valid()
      reads this
    {
      loaded.Length == loaded_len && loaded_len > 1
    }

    ghost function View(): Modules
      reads this, loaded
    {
      Modules(loaded[..], loaded_use, failed, scanned)
    }

    /** modules_init. */
    constructor ()
      ensures Valid() && fresh(loaded) && View() == Start()
    {
      loaded := new Slot[6](_ => Empty);
      loaded_len, loaded_use, failed, scanned := 6, 0, 0, false;
    }

    /** The growing step of modules_loadmod; the allocator is taken not to fail. */
    method Grow()
      requires Valid()
      modifies this
      ensures Valid() && View() == Grown(old(View())) && (loaded == old(loaded) || fresh(loaded))
    {
      if loaded_use + 1 >= loaded_len {
        var tmp := new Slot[loaded_len * 2](_ => Empty);
        forall i | 0 <= i < loaded_len {
          tmp[i] := loaded[i];
        }
        loaded := tmp;
        loaded_len := loaded_len * 2;
        assert loaded[..] == old(loaded[..]) + seq(old(loaded_len), _ => Empty);
      }
    }

    /** modules_loadmod: the slot taken, or -1 when the sanity check stops the program. */
    method LoadMod() returns (slot: int)
      requires Valid()
      modifies this, loaded
      ensures Valid()
      ensures slot == -1 <==> SanityFails(old(View()))
      ensures slot != -1 ==> 0 <= slot < loaded.Length && loaded[slot] == Initialising
      ensures slot != -1 ==> View() == Loaded(old(View()))
    {
      Grow();
      ghost var g := View();
      var i := 0;
      while i < loaded_len
        invariant i <= loaded_len && Valid() && View() == g
        invariant FirstFree(g.loaded, 0) == FirstFree(g.loaded, i)
      {
        if loaded[i] == Empty { break; }
        i := i + 1;
      }
      if i == loaded_len { return -1; }
      loaded[i] := Initialising;
      loaded_use := loaded_use + 1;
      return i;
    }
  }
}
