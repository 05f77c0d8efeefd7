/** Whole runs over the permission table: what a sequence of permissions_set calls leaves behind,
    and the ceiling that the setp command (src/modules/bot_perms.c) respects. */
module PermissionRuns {
  import opened CStrings
  import opened Options
  import opened HashTable
  import opened Permissions
  import CommandTrie

  // ---- the queue of one host ------------------------------------------------------------

  /** permissions_set on the queue of its host. */
  function SetQueue(q: seq<int>, level: int): seq<int> {
    (if Head(q) != 0 then Tail(q) else q) + [level]
  }

  lemma SetLevelQueues(t: Table, host: string, level: int, k: string)
    ensures Fifo(SetLevel(t, host, level), k) == if k == host then SetQueue(Fifo(t, k), level) else Fifo(t, k)
  {
    GetPeeks(t, host);
    RemoveDequeues(t, host, k);
    PutEnqueues(Forgotten(t, host), host, level, k);
  }

  datatype Write = Write(host: string, level: int)

  function RunSets(t: Table, writes: seq<Write>): Table {
    if writes == [] then t
    else
      var w := writes[|writes| - 1];
      SetLevel(RunSets(t, writes[..|writes| - 1]), w.host, w.level)
  }

  /** The levels written to one host, in order. */
  function LevelsFor(writes: seq<Write>, k: string): seq<int> {
    if writes == [] then []
    else
      var w := writes[|writes| - 1];
      LevelsFor(writes[..|writes| - 1], k) + (if w.host == k then [w.level] else [])
  }

  /** What the queue of a host looks like after these levels were written to it: the last one alone,
      or everything from the first 0 on. */
  function Collapsed(levels: seq<int>): seq<int> {
    if 0 in levels then levels[FirstZero(levels)..]
    else if levels == [] then []
    else levels[|levels| - 1..]
  }

  function FirstZero(levels: seq<int>): (i: nat)
    requires 0 in levels
    ensures i < |levels| && levels[i] == 0 && forall j :: 0 <= j < i ==> levels[j] != 0
  {
    if levels[0] == 0 then 0 else 1 + FirstZero(levels[1..])
  }

  lemma {:induction false} FirstZeroStays(levels: seq<int>, more: seq<int>)
    requires 0 in levels
    ensures 0 in levels + more && FirstZero(levels + more) == FirstZero(levels)
  {
    assert (levels + more)[FirstZero(levels)] == 0;
    if levels[0] != 0 {
      assert (levels + more)[1..] == levels[1..] + more;
      FirstZeroStays(levels[1..], more);
    }
  }

  lemma {:induction false} FirstZeroLast(levels: seq<int>)
    requires 0 !in levels
    ensures 0 in levels + [0] && FirstZero(levels + [0]) == |levels|
  {
    assert (levels + [0])[|levels|] == 0;
    if levels != [] {
      assert (levels + [0])[1..] == levels[1..] + [0];
      FirstZeroLast(levels[1..]);
    }
  }

  lemma CollapsedSnoc(levels: seq<int>, level: int)
    ensures Collapsed(levels + [level]) == SetQueue(Collapsed(levels), level)
  {
    if 0 in levels {
      FirstZeroStays(levels, [level]);
    } else if level == 0 {
      FirstZeroLast(levels);
    }
  }

  lemma {:induction false} RunSetsQueues(writes: seq<Write>, k: string)
    ensures Fifo(RunSets(Empty(), writes), k) == Collapsed(LevelsFor(writes, k))
  {
    if writes != [] {
      var n := |writes| - 1;
      RunSetsQueues(writes[..n], k);
      OneMoreSet(RunSets(Empty(), writes[..n]), LevelsFor(writes[..n], k), writes[n], k);
    }
  }

  lemma OneMoreSet(t: Table, levels: seq<int>, w: Write, k: string)
    requires Fifo(t, k) == Collapsed(levels)
    ensures Fifo(SetLevel(t, w.host, w.level), k) == Collapsed(levels + (if w.host == k then [w.level] else []))
  {
    SetLevelQueues(t, w.host, w.level, k);
    if w.host == k {
      CollapsedSnoc(levels, w.level);
    } else {
      assert levels + [] == levels;
    }
  }

  function Last(levels: seq<int>): int { if levels == [] then 0 else levels[|levels| - 1] }

  /** permissions_init as writes. */
  function FirstWrites(owner: Option<string>): seq<Write> {
    if owner.Some? then [Write(owner.value, OWNER_LEVEL)] else []
  }

  /** All levels written to a host since the start. */
  function History(owner: Option<string>, writes: seq<Write>, k: string): seq<int> {
    LevelsFor(FirstWrites(owner) + writes, k)
  }

  lemma OwnerIsFirstWrite(owner: Option<string>)
    ensures Initial(owner) == RunSets(Empty(), FirstWrites(owner))
  {
    if owner.Some? {
      assert FirstWrites(owner)[..0] == [];
      assert Fifo(Empty(), owner.value) == [];
      GetPeeks(Empty(), owner.value);
    }
  }

  lemma {:induction false} RunSetsConcat(t: Table, a: seq<Write>, b: seq<Write>)
    ensures RunSets(RunSets(t, a), b) == RunSets(t, a + b)
  {
    if b == [] {
      assert a + b == a;
    } else {
      RunSetsConcat(t, a, b[..|b| - 1]);
      ConcatLast(a, b);
    }
  }

  lemma ConcatLast<T>(a: seq<T>, b: seq<T>)
    requires b != []
    ensures a + b != [] && (a + b)[|a + b| - 1] == b[|b| - 1]
    ensures (a + b)[..|a + b| - 1] == a + b[..|b| - 1]
  {
  }

  /** From permissions_init on, the queue of a host is determined by the levels written to it. */
  lemma QueueOfHistory(owner: Option<string>, writes: seq<Write>, k: string)
    ensures Fifo(RunSets(Initial(owner), writes), k) == Collapsed(History(owner, writes, k))
  {
    OwnerIsFirstWrite(owner);
    RunSetsConcat(Empty(), FirstWrites(owner), writes);
    RunSetsQueues(FirstWrites(owner) + writes, k);
  }

  /** The exact lookup gives the last level written if and only if no 0 was written before it. */
  lemma LastWriteWins(owner: Option<string>, writes: seq<Write>, k: string)
    ensures var levels := History(owner, writes, k);
      Get(RunSets(Initial(owner), writes), k) == Last(levels) <==> Last(levels) == 0 || 0 !in levels
  {
    QueueOfHistory(owner, writes, k);
    GetPeeks(RunSets(Initial(owner), writes), k);
  }

  /** With nonzero levels only, each host has one entry: the table is an ordinary map. */
  lemma NonzeroWritesMakeAMap(owner: Option<string>, writes: seq<Write>, k: string)
    requires 0 !in History(owner, writes, k)
    ensures var levels := History(owner, writes, k);
      Fifo(RunSets(Initial(owner), writes), k) == if levels == [] then [] else [Last(levels)]
  {
    QueueOfHistory(owner, writes, k);
  }

  /** A stored 0 sticks: later writes only queue up behind it and the lookup stays 0. */
  lemma ZeroSticks(owner: Option<string>, writes: seq<Write>, more: seq<Write>, k: string)
    requires 0 in History(owner, writes, k)
    ensures Get(RunSets(Initial(owner), writes + more), k) == 0
    ensures Fifo(RunSets(Initial(owner), writes + more), k)
      == Fifo(RunSets(Initial(owner), writes), k) + LevelsFor(more, k)
  {
    var levels, later := History(owner, writes, k), LevelsFor(more, k);
    var t := RunSets(Initial(owner), writes + more);
    QueueOfHistory(owner, writes, k);
    assert Fifo(t, k) == Collapsed(levels + later) by {
      QueueOfHistory(owner, writes + more, k);
      HistoryConcat(owner, writes, more, k);
    }
    GetPeeks(t, k);
    CollapsedZero(levels, later);
  }

  lemma HistoryConcat(owner: Option<string>, writes: seq<Write>, more: seq<Write>, k: string)
    ensures History(owner, writes + more, k) == History(owner, writes, k) + LevelsFor(more, k)
  {
    LevelsConcat(FirstWrites(owner) + writes, more, k);
    Associate(FirstWrites(owner), writes, more);
  }

  lemma CollapsedZero(levels: seq<int>, more: seq<int>)
    requires 0 in levels
    ensures Collapsed(levels + more) == Collapsed(levels) + more && Head(Collapsed(levels + more)) == 0
  {
    FirstZeroStays(levels, more);
    var z := FirstZero(levels);
    assert (levels + more)[z..] == levels[z..] + more;
  }

  lemma {:induction false} LevelsConcat(writes: seq<Write>, more: seq<Write>, k: string)
    ensures LevelsFor(writes + more, k) == LevelsFor(writes, k) + LevelsFor(more, k)
  {
    if more == [] {
      assert writes + more == writes;
    } else {
      LevelsConcat(writes, more[..|more| - 1], k);
      ConcatLast(writes, more);
    }
  }

  // ---- the level ceiling ------------------------------------------------------------------

  /** The write that handle_cmd of bot_perms performs, if any. The command name is as typed, so only
      a lower-case s selects the setting branch. atoi is the C library's. */
  function HandleCmd(senderLevel: int, cmdname: string, args: string, atoi: string -> int): Option<Write> {
    if cmdname == "" || cmdname[0] != 's' then None
    else
      var i := IndexOf(args, ' ');
      if i == |args| then None
      else
        var level := atoi(args[..i]);
        if senderLevel >= PERMS_OP && level < senderLevel then Some(Write(args[i + 1..], level))
        else None
  }

  lemma SplitAtSpace(number: string, host: string)
    requires ' ' !in number
    ensures var args := number + " " + host;
      IndexOf(args, ' ') == |number| && args[..|number|] == number && args[|number| + 1..] == host
  {
    var args := number + " " + host;
    assert forall k :: 0 <= k < |number| ==> args[k] == number[k] && number[k] in number;
    assert args[|number|] == ' ';
  }

  /** "setp number host", under any spelling of the name that finds the handler, writes that level for
      that host exactly when the name begins with a lower-case s and the sender is an operator who
      outranks the level. */
  lemma SetpWrites(name: string, senderLevel: int, number: string, host: string, atoi: string -> int)
    requires CommandTrie.IsName(name) && CommandTrie.Fold(name) == CommandTrie.Fold("setp")
    requires ' ' !in number
    ensures HandleCmd(senderLevel, name, number + " " + host, atoi) ==
      if name[0] == 's' && senderLevel >= 40000 && atoi(number) < senderLevel
      then Some(Write(host, atoi(number))) else None
  {
    CommandTrie.FoldIgnoresCase(name, "setp");
    SplitAtSpace(number, host);
  }

  ghost predicate SameAsSetp(name: string) {
    forall senderLevel, args, atoi {:trigger HandleCmd(senderLevel, name, args, atoi)} ::
      HandleCmd(senderLevel, name, args, atoi) == HandleCmd(senderLevel, "setp", args, atoi)
  }

  /** The tree finds the handler under every spelling, but the spelling does not matter to the handler if
      and only if the name begins with a lower-case s. */
  lemma SpellingMatters(name: string)
    requires CommandTrie.IsName(name) && CommandTrie.Fold(name) == CommandTrie.Fold("setp")
    ensures SameAsSetp(name) <==> name[0] == 's'
  {
    CommandTrie.FoldIgnoresCase(name, "setp");
    if name[0] != 's' {
      var atoi := (s: string) => 0;
      SetpWrites(name, PERMS_OP, "0", "h", atoi);
      SetpWrites("setp", PERMS_OP, "0", "h", atoi);
      assert HandleCmd(PERMS_OP, name, "0" + " " + "h", atoi) != HandleCmd(PERMS_OP, "setp", "0" + " " + "h", atoi);
    }
  }

  /** The command reads another host's level. */
  predicate Queries(senderLevel: int, cmdname: string, args: string) {
    cmdname != "" && cmdname[0] == 'g' && args != "" && senderLevel >= PERMS_HOP
  }

  /** The table, the commands whose sender's level has been read but not used yet, and whether the
      permission mutex has been left locked, in which case everyone who needs it waits for good. */
  datatype World = World(table: Table, pending: map<nat, int>, locked: bool)

  /** A worker reads its sender's level, and some steps later runs its handler with it. A sender without
      a host has a null pointer there. */
  datatype Event =
    | ReadLevel(id: nat, host: Option<string>)
    | RunHandler(id: nat, cmdname: string, args: string)

  function Step(w: World, e: Event, atoi: string -> int): World {
    match e
    case ReadLevel(id, host) => if w.locked then w else Read(w, id, host)
    case RunHandler(id, cmdname, args) => if id in w.pending then Handled(w, id, cmdname, args, atoi) else w
  }

  /** permissions_get for the sender. The null pointer faults with the mutex locked, and the handler of the
      fault gives the command up; a host of more than 128 bytes gives 0 and leaves the mutex locked. */
  function Read(w: World, id: nat, host: Option<string>): World {
    if host.None? then w.(locked := true)
    else if |host.value| > 128 then w.(pending := w.pending[id := 0], locked := true)
    else if FitsPbuf(LevelsOf(w.table), host.value) then
      w.(pending := w.pending[id := Lookup(LevelsOf(w.table), host.value)])
    else w
  }

  function Handled(w: World, id: nat, cmdname: string, args: string, atoi: string -> int): World
    requires id in w.pending
  {
    var write := HandleCmd(w.pending[id], cmdname, args, atoi);
    var queries := Queries(w.pending[id], cmdname, args);
    if w.locked && (write.Some? || queries) then w
    else
      World(
        if write.Some? then SetLevel(w.table, write.value.host, write.value.level) else w.table,
        w.pending - {id},
        w.locked || (queries && |args| > 128))
  }

  function Run(w: World, events: seq<Event>, atoi: string -> int): World {
    if events == [] then w
    else Step(Run(w, events[..|events| - 1], atoi), events[|events| - 1], atoi)
  }

  /** A sender's setp takes effect: with the level that the sender's host has when it is read, the table
      is changed exactly if that is an operator's and outranks the level to be set. */
  lemma SetpTakesEffect(w: World, id: nat, sender: string, number: string, host: string, atoi: string -> int)
    requires !w.locked && FitsPbuf(LevelsOf(w.table), sender) && ' ' !in number
    ensures var level := Lookup(LevelsOf(w.table), sender);
      var events := [ReadLevel(id, Some(sender)), RunHandler(id, "setp", number + " " + host)];
      var after := Run(w, events, atoi);
      && after.table ==
        (if level >= 40000 && atoi(number) < level then SetLevel(w.table, host, atoi(number)) else w.table)
      && after.pending == w.pending - {id} && !after.locked
  {
    var level := Lookup(LevelsOf(w.table), sender);
    var mid := World(w.table, w.pending[id := level], false);
    var args := number + " " + host;
    assert Run(w, [ReadLevel(id, Some(sender)), RunHandler(id, "setp", args)], atoi)
        == Handled(mid, id, "setp", args, atoi) by {
      RunTwo(w, ReadLevel(id, Some(sender)), RunHandler(id, "setp", args), atoi);
    }
    HandledSetp(mid, id, number, host, atoi);
    assert mid.pending - {id} == w.pending - {id};
  }

  lemma RunTwo(w: World, first: Event, second: Event, atoi: string -> int)
    ensures Run(w, [first, second], atoi) == Step(Step(w, first, atoi), second, atoi)
  {
    assert [first, second][..1] == [first] && [first][..0] == [];
    assert Run(w, [first], atoi) == Step(w, first, atoi);
  }

  lemma HandledSetp(w: World, id: nat, number: string, host: string, atoi: string -> int)
    requires !w.locked && id in w.pending && ' ' !in number
    ensures var level := w.pending[id];
      Handled(w, id, "setp", number + " " + host, atoi) == World(
        if level >= 40000 && atoi(number) < level then SetLevel(w.table, host, atoi(number)) else w.table,
        w.pending - {id}, false)
  {
    SetpWrites("setp", w.pending[id], number, host, atoi);
  }

  /** The owner starts with level 100000, and no one else with any but that of a matching mask. */
  lemma OwnerStarts(owner: string, host: string)
    ensures Lookup(LevelsOf(Initial(Some(owner))), owner) == 100000
    ensures Get(Initial(Some(owner)), host) == if host == owner then 100000 else 0
    ensures Get(Initial(None), host) == 0
  {
    PutEnqueues(Empty(), owner, 100000, owner);
    PutEnqueues(Empty(), owner, 100000, host);
    GetPeeks(Initial(Some(owner)), owner);
    GetPeeks(Initial(Some(owner)), host);
    GetPeeks(Empty(), host);
  }

  /** The steps that leave the mutex locked: the read of a sender without a host or with one of more than
      128 bytes, and a getp for such a host. */
  predicate Locks(w: World, e: Event) {
    match e
    case ReadLevel(id, host) => host.None? || |host.value| > 128
    case RunHandler(id, cmdname, args) =>
      id in w.pending && Queries(w.pending[id], cmdname, args) && |args| > 128
  }

  ghost predicate LocksAt(w: World, events: seq<Event>, atoi: string -> int, k: nat)
    requires k < |events|
  {
    Locks(Run(w, events[..k], atoi), events[k])
  }

  /** The mutex has been left locked exactly when one of the steps so far was such a step. */
  lemma {:induction false} LockedExactly(w: World, events: seq<Event>, atoi: string -> int)
    requires !w.locked
    ensures Run(w, events, atoi).locked <==> exists k :: 0 <= k < |events| && LocksAt(w, events, atoi, k)
  {
    if events != [] {
      var n := |events| - 1;
      var before := events[..n];
      LockedExactly(w, before, atoi);
      forall k | 0 <= k < n ensures LocksAt(w, before, atoi, k) <==> LocksAt(w, events, atoi, k) {
        assert before[..k] == events[..k];
      }
      assert Run(w, events, atoi).locked <==> Run(w, before, atoi).locked || LocksAt(w, events, atoi, n);
    }
  }

  /** Once the mutex was left locked the table never changes again. */
  lemma {:induction false} LockStops(w: World, events: seq<Event>, atoi: string -> int)
    requires w.locked
    ensures Run(w, events, atoi).locked && Run(w, events, atoi).table == w.table
  {
    if events != [] { LockStops(w, events[..|events| - 1], atoi); }
  }

  function Start(owner: Option<string>): World { World(Initial(owner), map[], false) }

  /** The queue of a host stays under the ceiling. */
  ghost predicate Under(q: seq<int>, isOwner: bool) {
    && (forall i :: 0 <= i < |q| ==> q[i] <= OWNER_LEVEL)
    && multiset(q)[OWNER_LEVEL] <= (if isOwner then 1 else 0)
  }

  ghost predicate Ceiling(w: World, owner: Option<string>) {
    && WellPlaced(w.table)
    && (forall k {:trigger Fifo(w.table, k)} :: Under(Fifo(w.table, k), owner == Some(k)))
    && (forall id :: id in w.pending ==> w.pending[id] <= OWNER_LEVEL)
    && (owner.None? ==>
      && (forall k {:trigger Fifo(w.table, k)} :: Fifo(w.table, k) == [])
      && forall id :: id in w.pending ==> w.pending[id] == 0)
  }

  lemma {:induction false} WildcardBounded(levels: Levels, host: string, n: nat, bound: int)
    requires n <= |host|
    requires forall k :: levels(k) <= bound
    ensures Wildcard(levels, host, n) <= bound
  {
    if n > 0 { WildcardBounded(levels, host, n - 1, bound); }
  }

  lemma HeadUnder(q: seq<int>, isOwner: bool)
    requires Under(q, isOwner)
    ensures Head(q) <= OWNER_LEVEL
  {
  }

  lemma ReadUnder(w: World, owner: Option<string>, host: string)
    requires Ceiling(w, owner)
    ensures Lookup(LevelsOf(w.table), host) <= OWNER_LEVEL
    ensures owner.None? ==> Lookup(LevelsOf(w.table), host) == 0
  {
    var levels := LevelsOf(w.table);
    forall k ensures levels(k) == Head(Fifo(w.table, k)) {
      GetPeeks(w.table, k);
    }
    forall k ensures levels(k) <= OWNER_LEVEL {
      HeadUnder(Fifo(w.table, k), owner == Some(k));
    }
    WildcardBounded(levels, host, |host|, OWNER_LEVEL);
    if owner.None? {
      LookupIsLongestPrefix(levels, host);
    }
  }

  lemma SetUnder(q: seq<int>, level: int, isOwner: bool)
    requires Under(q, isOwner) && level < OWNER_LEVEL
    ensures Under(SetQueue(q, level), isOwner)
  {
    if Head(q) != 0 {
      assert q == [q[0]] + q[1..];
    }
  }

  lemma SetLevelUnder(t: Table, host: string, level: int, owner: Option<string>)
    requires forall k {:trigger Fifo(t, k)} :: Under(Fifo(t, k), owner == Some(k))
    requires level < OWNER_LEVEL && WellPlaced(t)
    ensures WellPlaced(SetLevel(t, host, level))
    ensures forall k {:trigger Fifo(SetLevel(t, host, level), k)} ::
      Under(Fifo(SetLevel(t, host, level), k), owner == Some(k))
  {
    RemovePlaced(t, host);
    PutPlaced(Forgotten(t, host), host, level);
    forall k ensures Under(Fifo(SetLevel(t, host, level), k), owner == Some(k)) {
      SetLevelQueues(t, host, level, k);
      SetUnder(Fifo(t, k), level, owner == Some(k));
    }
  }

  lemma StepKeepsCeiling(w: World, e: Event, atoi: string -> int, owner: Option<string>)
    requires Ceiling(w, owner)
    ensures Ceiling(Step(w, e, atoi), owner)
  {
    match e {
      case ReadLevel(id, host) =>
        ReadKeepsCeiling(w, id, host, owner);
      case RunHandler(id, cmdname, args) =>
        if id in w.pending { HandledUnder(w, id, cmdname, args, atoi, owner); }
    }
  }

  lemma ReadKeepsCeiling(w: World, id: nat, host: Option<string>, owner: Option<string>)
    requires Ceiling(w, owner)
    ensures Ceiling(Read(w, id, host), owner)
  {
    if host.Some? { ReadUnder(w, owner, host.value); }
  }

  lemma HandledUnder(w: World, id: nat, cmdname: string, args: string, atoi: string -> int, owner: Option<string>)
    requires Ceiling(w, owner) && id in w.pending
    ensures Ceiling(Handled(w, id, cmdname, args, atoi), owner)
  {
    var write := HandleCmd(w.pending[id], cmdname, args, atoi);
    if write.Some? { SetLevelUnder(w.table, write.value.host, write.value.level, owner); }
  }

  lemma StartUnder(owner: Option<string>)
    ensures Ceiling(Start(owner), owner)
  {
    assert forall k :: Fifo(Empty(), k) == [];
    if owner.Some? {
      var t := Initial(owner);
      forall k ensures Under(Fifo(t, k), owner == Some(k)) {
        PutEnqueues(Empty(), owner.value, OWNER_LEVEL, k);
      }
      PutPlaced(Empty(), owner.value, OWNER_LEVEL);
    }
  }

  lemma {:induction false} RunKeepsCeiling(owner: Option<string>, events: seq<Event>, atoi: string -> int)
    ensures Ceiling(Run(Start(owner), events, atoi), owner)
  {
    if events == [] {
      StartUnder(owner);
    } else {
      var before := events[..|events| - 1];
      RunKeepsCeiling(owner, before, atoi);
      StepKeepsCeiling(Run(Start(owner), before, atoi), events[|events| - 1], atoi, owner);
    }
  }

  /** However reads and writes interleave, no stored entry ever reaches the owner's level except the
      owner's own first entry, and without a configured owner nothing is ever stored. */
  lemma LevelCeiling(owner: Option<string>, events: seq<Event>, atoi: string -> int)
    ensures var stored := multiset(Flatten(Run(Start(owner), events, atoi).table, 256));
      && (forall e :: e in stored ==> e.value < OWNER_LEVEL || (e.value == OWNER_LEVEL && owner == Some(e.key)))
      && (owner.Some? ==> stored[Entry(owner.value, OWNER_LEVEL)] <= 1)
      && (owner.None? ==> stored == multiset{})
  {
    RunKeepsCeiling(owner, events, atoi);
    var t := Run(Start(owner), events, atoi).table;
    var stored := multiset(Flatten(t, 256));
    forall e: Entry
      ensures stored[e] == multiset(Fifo(t, e.key))[e.value] && Under(Fifo(t, e.key), owner == Some(e.key))
    {
      IterationIsExact(t, e);
    }
    forall e: Entry | e in stored
      ensures e.value <= OWNER_LEVEL && owner.Some? && (e.value == OWNER_LEVEL ==> owner == Some(e.key))
    {
      var q := Fifo(t, e.key);
      assert e.value in multiset(q);
    }
    if owner.Some? {
      var e := Entry(owner.value, OWNER_LEVEL);
      assert stored[e] == multiset(Fifo(t, e.key))[e.value];
    }
  }

  /** The table that permissions_init leaves gives this host an operator's level. */
  ghost predicate StartsAsOperator(owner: Option<string>, host: Option<string>) {
    host.Some? && |host.value| <= 128 && Lookup(LevelsOf(Initial(owner)), host.value) >= PERMS_OP
  }

  /** As long as none of the senders is an operator to begin with, no command changes anything. */
  lemma {:induction false} OnlyOperatorsStart(owner: Option<string>, events: seq<Event>, atoi: string -> int)
    requires forall k :: 0 <= k < |events| && events[k].ReadLevel? ==> !StartsAsOperator(owner, events[k].host)
    ensures Unchanged(Run(Start(owner), events, atoi), owner)
  {
    if events != [] {
      var n := |events| - 1;
      OnlyOperatorsStart(owner, events[..n], atoi);
      StepUnchanged(Run(Start(owner), events[..n], atoi), events[n], atoi, owner);
    }
  }

  ghost predicate Unchanged(w: World, owner: Option<string>) {
    w.table == Initial(owner) && forall id :: id in w.pending ==> w.pending[id] < PERMS_OP
  }

  lemma StepUnchanged(w: World, e: Event, atoi: string -> int, owner: Option<string>)
    requires Unchanged(w, owner) && (e.ReadLevel? ==> !StartsAsOperator(owner, e.host))
    ensures Unchanged(Step(w, e, atoi), owner)
  {
  }
}
