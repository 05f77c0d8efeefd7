/** What the bucketed hash table of src/hashmap.c means: a FIFO of values per key.
    The state is the list of its 256 buckets; class HashMap (HashMap.dfy) keeps such a state
    in growable arrays. */
module HashTable {
  import Crc8

  datatype Entry = Entry(key: string, value: int)

  type Bucket = seq<Entry>

  type Table = t: seq<Bucket> | |t| == 256 witness seq(256, _ => [])

  /** The bytes of a C string: one character stands for one byte. */
  function BytesOf(key: string): (m: Crc8.Bytes)
    ensures |m| == |key|
  {
    seq(|key|, i requires 0 <= i < |key| => Crc8.ByteOf(key[i] as int % 256))
  }

  function Hash(key: string): (h: nat)
    ensures h < 256
  {
    Crc8.Power2Of8();
    Crc8.Value(Crc8.Crc(BytesOf(key)))
  }

  /** Keys that differ in one character share a bucket only if they are equal. */
  lemma OneCharacterDifference(p: string, c: char, d: char, q: string)
    requires c as int < 256 && d as int < 256
    ensures Hash(p + [c] + q) == Hash(p + [d] + q) <==> c == d
  {
    Crc8.Power2Of8();
    var x, y := Crc8.ByteOf(c as int), Crc8.ByteOf(d as int);
    BytesOfKey(p, c, q);
    BytesOfKey(p, d, q);
    Crc8.OneByteDifference(BytesOf(p), x, y, BytesOf(q));
    if Hash(p + [c] + q) == Hash(p + [d] + q) {
      Crc8.ValueInjective(Crc8.Crc(BytesOf(p + [c] + q)), Crc8.Crc(BytesOf(p + [d] + q)));
      Crc8.OfIntInjective(c as int, d as int, 8);
    }
  }

  lemma BytesOfKey(p: string, c: char, q: string)
    requires c as int < 256
    ensures BytesOf(p + [c] + q) == BytesOf(p) + [Crc8.ByteOf(c as int)] + BytesOf(q)
  {
    BytesConcat(p, [c]);
    BytesConcat(p + [c], q);
    assert BytesOf([c]) == [Crc8.ByteOf(c as int)];
  }

  lemma BytesConcat(a: string, b: string)
    ensures BytesOf(a + b) == BytesOf(a) + BytesOf(b)
  {
    forall i | 0 <= i < |a| + |b| ensures BytesOf(a + b)[i] == (BytesOf(a) + BytesOf(b))[i] {
      assert (a + b)[i] == if i < |a| then a[i] else b[i - |a|];
    }
  }

  /** Position of the first entry with this key, or the length of the bucket. */
  function Find(b: Bucket, key: string): (i: nat)
    ensures i <= |b|
    ensures i < |b| ==> b[i].key == key
    ensures forall j :: 0 <= j < i ==> b[j].key != key
  {
    if b == [] || b[0].key == key then 0 else 1 + Find(b[1..], key)
  }

  function Put(t: Table, key: string, value: int): Table {
    t[Hash(key) := t[Hash(key)] + [Entry(key, value)]]
  }

  /** The value of the first entry with this key, or 0. */
  function GetIn(b: Bucket, key: string): int {
    var i := Find(b, key);
    if i < |b| then b[i].value else 0
  }

  function Get(t: Table, key: string): int { GetIn(t[Hash(key)], key) }

  /** A bucket without its first entry for this key. */
  function Drop(b: Bucket, key: string): (d: Bucket)
    ensures |d| <= |b|
  {
    if b == [] then []
    else if b[0].key == key then b[1..]
    else [b[0]] + Drop(b[1..], key)
  }

  lemma {:induction false} DropNothing(b: Bucket, key: string)
    requires Find(b, key) == |b|
    ensures Drop(b, key) == b
  {
    if b != [] { DropNothing(b[1..], key); }
  }

  lemma {:induction false} DropAt(b: Bucket, key: string, i: nat)
    requires i == Find(b, key) < |b|
    ensures Drop(b, key) == b[..i] + b[i + 1..]
  {
    if b[0].key == key {
      assert b[..0] + b[1..] == b[1..];
    } else {
      DropAt(b[1..], key, i - 1);
      CutAfter(b[0], b[1..], i - 1);
      assert [b[0]] + b[1..] == b;
    }
  }

  /** Dropping is shifting the later entries down by one. */
  lemma {:induction false} DropShifts(b: Bucket, key: string)
    ensures var i := Find(b, key);
      Drop(b, key) == if i < |b| then b[..i] + b[i + 1..] else b
  {
    var i := Find(b, key);
    if i < |b| { DropAt(b, key, i); } else { DropNothing(b, key); }
  }

  lemma CutAfter(e: Entry, c: Bucket, i: nat)
    requires i < |c|
    ensures var b := [e] + c; b[..i + 1] + b[i + 2..] == [e] + (c[..i] + c[i + 1..])
  {
    var b := [e] + c;
    assert b[..i + 1] == [e] + c[..i];
    assert b[i + 2..] == c[i + 1..];
  }

  function Remove(t: Table, key: string): Table {
    t[Hash(key) := Drop(t[Hash(key)], key)]
  }

  function Empty(): Table { seq(256, _ => []) }

  /** Every entry sits in the bucket of its key. */
  ghost predicate WellPlaced(t: Table) {
    forall i, j :: 0 <= i < 256 && 0 <= j < |t[i]| ==> Hash(t[i][j].key) == i
  }

  /** The values a list of entries holds for a key, oldest first. */
  function Values(b: Bucket, key: string): seq<int> {
    if b == [] then []
    else (if b[0].key == key then [b[0].value] else []) + Values(b[1..], key)
  }

  /** The queue of a key. */
  function Fifo(t: Table, key: string): seq<int> { Values(t[Hash(key)], key) }

  function Head(q: seq<int>): int { if q == [] then 0 else q[0] }

  function Tail(q: seq<int>): seq<int> { if q == [] then [] else q[1..] }

  // ---- the queue laws ---------------------------------------------------------------------

  function One(e: Entry, key: string): seq<int> { if e.key == key then [e.value] else [] }

  lemma ValuesCons(e: Entry, b: Bucket, key: string)
    ensures Values([e] + b, key) == One(e, key) + Values(b, key)
  {
    assert ([e] + b)[1..] == b;
  }

  lemma {:induction false} ValuesConcat(a: Bucket, b: Bucket, key: string)
    ensures Values(a + b, key) == Values(a, key) + Values(b, key)
  {
    if a == [] {
      assert a + b == b;
    } else {
      ValuesConcat(a[1..], b, key);
      assert a + b == [a[0]] + (a[1..] + b);
      ValuesCons(a[0], a[1..] + b, key);
      Associate(One(a[0], key), Values(a[1..], key), Values(b, key));
    }
  }

  lemma Associate<T>(a: seq<T>, b: seq<T>, c: seq<T>)
    ensures (a + b) + c == a + (b + c)
  {
  }

  lemma {:induction false} GetIsHead(b: Bucket, key: string)
    ensures Head(Values(b, key)) == GetIn(b, key)
  {
    if b != [] && b[0].key != key {
      GetIsHead(b[1..], key);
    }
  }

  lemma {:induction false} DropIsTail(b: Bucket, key: string, k: string)
    ensures Values(Drop(b, key), k) == if k == key then Tail(Values(b, k)) else Values(b, k)
  {
    if b != [] && b[0].key != key {
      var c := b[1..];
      DropIsTail(c, key, k);
      ValuesCons(b[0], Drop(c, key), k);
      assert Values(b, k) == One(b[0], k) + Values(c, k);
      if k == key {
        assert Values(Drop(b, key), k) == Values(Drop(c, key), k);
      }
    }
  }

  lemma PutEnqueues(t: Table, key: string, value: int, k: string)
    ensures Fifo(Put(t, key, value), k) == Fifo(t, k) + (if k == key then [value] else [])
  {
    var e := Entry(key, value);
    ValuesConcat(t[Hash(key)], [e], k);
    assert [e] == [e] + [];
    ValuesCons(e, [], k);
  }

  lemma GetPeeks(t: Table, key: string)
    ensures Get(t, key) == Head(Fifo(t, key))
  {
    GetIsHead(t[Hash(key)], key);
  }

  lemma RemoveDequeues(t: Table, key: string, k: string)
    ensures Fifo(Remove(t, key), k) == if k == key then Tail(Fifo(t, k)) else Fifo(t, k)
  {
    DropIsTail(t[Hash(key)], key, k);
  }

  lemma PutPlaced(t: Table, key: string, value: int)
    requires WellPlaced(t)
    ensures WellPlaced(Put(t, key, value))
  {
  }

  lemma RemovePlaced(t: Table, key: string)
    requires WellPlaced(t)
    ensures WellPlaced(Remove(t, key))
  {
    var h := Hash(key);
    var b, d := t[h], Drop(t[h], key);
    forall i, j | 0 <= i < 256 && 0 <= j < |Remove(t, key)[i]| ensures Hash(Remove(t, key)[i][j].key) == i {
      if i == h {
        DropEntry(b, key, j);
        var k :| 0 <= k < |b| && b[k] == d[j];
        assert Hash(t[h][k].key) == h;
      }
    }
  }

  lemma {:induction false} DropEntry(b: Bucket, key: string, j: nat)
    requires j < |Drop(b, key)|
    ensures exists k :: 0 <= k < |b| && b[k] == Drop(b, key)[j]
  {
    if b[0].key == key {
      assert b[j + 1] == Drop(b, key)[j];
    } else if j == 0 {
      assert b[0] == Drop(b, key)[j];
    } else {
      DropEntry(b[1..], key, j - 1);
      var k :| 0 <= k < |b| - 1 && b[1..][k] == Drop(b[1..], key)[j - 1];
      assert b[k + 1] == Drop(b, key)[j];
    }
  }

  // ---- whole runs -------------------------------------------------------------------------

  datatype Op = PutOp(key: string, value: int) | GetOp(key: string) | RemoveOp(key: string) | EmptyOp

  /** One call on the table, with the number it returns. */
  function Step(t: Table, op: Op): (Table, int) {
    match op
    case PutOp(k, v) => (Put(t, k, v), 0)
    case GetOp(k) => (t, Get(t, k))
    case RemoveOp(k) => (Remove(t, k), Get(t, k))
    case EmptyOp => (Empty(), 0)
  }

  function Run(t: Table, ops: seq<Op>): (Table, seq<int>)
    decreases |ops|
  {
    if ops == [] then (t, [])
    else
      var (t1, r) := Step(t, ops[0]);
      var (t2, rs) := Run(t1, ops[1..]);
      (t2, [r] + rs)
  }

  /** The reference: a map from keys to queues. */
  type Queues = map<string, seq<int>>

  function Queue(m: Queues, k: string): seq<int> { if k in m then m[k] else [] }

  function QueueStep(m: Queues, op: Op): (Queues, int) {
    match op
    case PutOp(k, v) => (m[k := Queue(m, k) + [v]], 0)
    case GetOp(k) => (m, Head(Queue(m, k)))
    case RemoveOp(k) => (m[k := Tail(Queue(m, k))], Head(Queue(m, k)))
    case EmptyOp => (map[], 0)
  }

  function QueueRun(m: Queues, ops: seq<Op>): (Queues, seq<int>)
    decreases |ops|
  {
    if ops == [] then (m, [])
    else
      var (m1, r) := QueueStep(m, ops[0]);
      var (m2, rs) := QueueRun(m1, ops[1..]);
      (m2, [r] + rs)
  }

  ghost predicate Refines(t: Table, m: Queues) {
    WellPlaced(t) && forall k :: Fifo(t, k) == Queue(m, k)
  }

  lemma StepRefines(t: Table, m: Queues, op: Op)
    requires Refines(t, m)
    ensures Refines(Step(t, op).0, QueueStep(m, op).0)
    ensures Step(t, op).1 == QueueStep(m, op).1
  {
    match op {
      case PutOp(key, value) =>
        PutRefines(t, m, key, value);
      case GetOp(key) =>
        GetRefines(t, m, key);
      case RemoveOp(key) =>
        GetRefines(t, m, key);
        RemoveRefines(t, m, key);
      case EmptyOp =>
        EmptyRefines();
    }
  }

  lemma EmptyRefines()
    ensures Refines(Empty(), map[])
  {
  }

  lemma GetRefines(t: Table, m: Queues, key: string)
    requires Refines(t, m)
    ensures Get(t, key) == Head(Queue(m, key))
  {
    assert Fifo(t, key) == Queue(m, key);
    GetPeeks(t, key);
  }

  lemma PutRefines(t: Table, m: Queues, key: string, value: int)
    requires Refines(t, m)
    ensures Refines(Put(t, key, value), QueueStep(m, PutOp(key, value)).0)
  {
    PutPlaced(t, key, value);
    forall k ensures Fifo(Put(t, key, value), k) == Queue(QueueStep(m, PutOp(key, value)).0, k) {
      assert Fifo(t, k) == Queue(m, k);
      PutEnqueues(t, key, value, k);
    }
  }

  lemma RemoveRefines(t: Table, m: Queues, key: string)
    requires Refines(t, m)
    ensures Refines(Remove(t, key), QueueStep(m, RemoveOp(key)).0)
  {
    RemovePlaced(t, key);
    forall k ensures Fifo(Remove(t, key), k) == Queue(QueueStep(m, RemoveOp(key)).0, k) {
      assert Fifo(t, k) == Queue(m, k);
      RemoveDequeues(t, key, k);
    }
  }

  /** Over any run the table answers exactly as the map from keys to queues does. */
  lemma {:induction false} RunRefines(t: Table, m: Queues, ops: seq<Op>)
    requires Refines(t, m)
    ensures Refines(Run(t, ops).0, QueueRun(m, ops).0)
    ensures Run(t, ops).1 == QueueRun(m, ops).1
    decreases |ops|
  {
    if ops != [] {
      StepRefines(t, m, ops[0]);
      RunRefines(Step(t, ops[0]).0, QueueStep(m, ops[0]).0, ops[1..]);
    }
  }

  // ---- iteration --------------------------------------------------------------------------

  /** The entries of the first n buckets, in the order hashmap_iterate visits them. */
  function Flatten(t: Table, n: nat): seq<Entry>
    requires n <= 256
  {
    if n == 0 then [] else Flatten(t, n - 1) + t[n - 1]
  }

  lemma FlattenValues(t: Table, key: string)
    requires WellPlaced(t)
    ensures Values(Flatten(t, 256), key) == Fifo(t, key)
  {
    forall i: nat | i < 256 ensures Values(t[i], key) == if Hash(key) == i then Fifo(t, key) else [] {
      BucketValues(t, i, key);
    }
    FlattenOne(t, 256, key, Hash(key), Fifo(t, key));
  }

  /** Only the bucket at h holds values for the key. */
  lemma {:induction false} FlattenOne(t: Table, n: nat, key: string, h: nat, queue: seq<int>)
    requires n <= 256
    requires forall i: nat :: i < 256 ==> Values(t[i], key) == if h == i then queue else []
    ensures Values(Flatten(t, n), key) == if h < n then queue else []
  {
    if n > 0 {
      FlattenOne(t, n - 1, key, h, queue);
      ValuesConcat(Flatten(t, n - 1), t[n - 1], key);
      OneNonempty(Values(Flatten(t, n - 1), key), Values(t[n - 1], key));
    }
  }

  lemma OneNonempty<T>(a: seq<T>, b: seq<T>)
    ensures a == [] ==> a + b == b
    ensures b == [] ==> a + b == a
  {
  }

  lemma BucketValues(t: Table, i: nat, key: string)
    requires i < 256 && WellPlaced(t)
    ensures Values(t[i], key) == if Hash(key) == i then Fifo(t, key) else []
  {
    if Hash(key) != i { NoValues(t[i], key); }
  }

  lemma {:induction false} NoValues(b: Bucket, key: string)
    requires forall j :: 0 <= j < |b| ==> b[j].key != key
    ensures Values(b, key) == []
  {
    if b != [] { NoValues(b[1..], key); }
  }

  /** A full iteration visits each value of each queue exactly as often as it is queued. */
  lemma IterationIsExact(t: Table, e: Entry)
    requires WellPlaced(t)
    ensures multiset(Flatten(t, 256))[e] == multiset(Fifo(t, e.key))[e.value]
  {
    FlattenValues(t, e.key);
    CountValues(Flatten(t, 256), e);
  }

  lemma {:induction false} CountValues(b: Bucket, e: Entry)
    ensures multiset(b)[e] == multiset(Values(b, e.key))[e.value]
  {
    if b != [] {
      CountValues(b[1..], e);
      assert b == [b[0]] + b[1..];
    }
  }
}
