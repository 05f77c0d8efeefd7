/** The hash table of src/hashmap.c as it is stored: 256 growable arrays.
    Each method is tied to the table operation of the same name in HashTable. */
module HashMaps {
  import Crc8
  import opened HashTable

  newtype uint16 = x: int | 0 <= x < 0x1_0000

  /** 0, or 4 doubled some number of times. */
  predicate IsRoom(n: nat) {
    n == 0 || n == 4 || (n % 2 == 0 && n / 2 != 0 && IsRoom(n / 2))
  }

  /** A bucket has room for 0 or 4 times a power of two entries. */
  lemma {:induction false} RoomIsPower(n: nat)
    ensures IsRoom(n) <==> n == 0 || exists k: nat :: n == 4 * Crc8.Power2(k)
  {
    if n == 4 {
      assert n == 4 * Crc8.Power2(0);
    } else if n != 0 {
      if n % 2 == 0 && n / 2 != 0 {
        RoomIsPower(n / 2);
        if IsRoom(n / 2) {
          var k: nat :| n / 2 == 4 * Crc8.Power2(k);
          assert n == 4 * Crc8.Power2(k + 1);
        }
      }
      forall k: nat | n == 4 * Crc8.Power2(k) ensures IsRoom(n) {
        if k > 0 { assert n / 2 == 4 * Crc8.Power2(k - 1); }
      }
    }
  }

  /** hashmap_entry_list. */
  class EntryList {
    var vlen: uint16
    var vroom: uint16
    var values: array?<Entry>

    ghost predicate Valid()
      reads this, values
    {
      && vlen <= vroom
      && IsRoom(vroom as int)
      && (values == null <==> vroom == 0)
      && (values != null ==> values.Length == vroom as int)
    }

    ghost function Contents(): Bucket
      requires Valid()
      reads this, values
    {
      if values == null then [] else values[..vlen]
    }

    constructor ()
      ensures Valid() && Contents() == [] && values == null
    {
      vlen, vroom, values := 0, 0, null;
    }

    /** The growing half of hashmap_put; the allocator is taken not to fail. */
    method Append(e: Entry)
      requires Valid() && vlen < 0x8000
      modifies this, values
      ensures Valid() && Contents() == old(Contents()) + [e]
      ensures values == old(values) || fresh(values)
    {
      ghost var before := Contents();
      vlen := vlen + 1;
      if vroom < vlen {
        vroom := if vroom == 0 then 4 else vroom * 2;
        var bigger := new Entry[vroom];
        if values != null {
          forall i | 0 <= i < values.Length {
            bigger[i] := values[i];
          }
        }
        values := bigger;
        assert values[..vlen - 1] == before;
      }
      values[vlen - 1] := e;
      assert values[..vlen] == values[..vlen - 1] + [e];
    }

    /** The search loop shared by hashmap_get and hashmap_remove. */
    method Search(key: string) returns (i: uint16)
      requires Valid()
      ensures i as int == Find(Contents(), key) && i <= vlen
    {
      i := 0;
      while i < vlen
        invariant i <= vlen
        invariant forall j :: 0 <= j < i ==> values[j].key != key
      {
        if values[i].key == key {
          break;
        }
        i := i + 1;
      }
    }

    /** The shifting half of hashmap_remove: the vlen - i - 1 later entries move down by one. */
    method Delete(i: uint16)
      requires Valid() && i < vlen
      modifies this`vlen, values
      ensures Valid()
      ensures Contents() == old(Contents()[..i] + Contents()[i as int + 1..])
    {
      ghost var before := Contents();
      forall j | i as int <= j < vlen as int - 1 {
        values[j] := values[j + 1];
      }
      vlen := vlen - 1;
      assert values[..vlen] == before[..i] + before[i as int + 1..];
    }

    /** The inner loop of hashmap_iterate. */
    method Visit(stop: Entry -> bool) returns (stopped: bool, visited: seq<Entry>)
      requires Valid()
      ensures Visited(Contents(), stop, stopped, visited)
    {
      visited := [];
      var j := 0;
      while j < vlen
        invariant j <= vlen
        invariant visited == Contents()[..j]
        invariant forall k :: 0 <= k < |visited| ==> !stop(visited[k])
      {
        var he := values[j];
        visited := visited + [he];
        j := j + 1;
        if stop(he) {
          return true, visited;
        }
      }
      return false, visited;
    }

    method Clear()
      modifies this
      ensures Valid() && Contents() == [] && values == null
    {
      values, vlen, vroom := null, 0, 0;
    }
  }

  class HashMap {
    var num_entry: nat
    const buckets: array<EntryList>
    const crc: Crc8.Crc8Table
    ghost var table: Table
    ghost var Repr: set<object>

    ghost predicate Valid()
      reads this, Repr
      ensures Valid() ==> this in Repr
    {
      Shape() && WellPlaced(table)
    }

    /** The 256 buckets are separate objects, and together they hold the table. */
    ghost predicate Shape()
      reads this, Repr
      ensures Shape() ==> this in Repr
    {
      && {this, buckets, crc, crc.table8} <= Repr
      && buckets.Length == 256
      && crc.Valid() && crc.hinit
      && (forall i :: 0 <= i < 256 ==>
        && buckets[i] in Repr
        && (buckets[i].values != null ==> buckets[i].values in Repr)
        && buckets[i].Valid()
        && buckets[i].Contents() == table[i])
      && (forall i, j :: 0 <= i < j < 256 ==>
        && buckets[i] != buckets[j]
        && (buckets[i].values != null ==> buckets[i].values != buckets[j].values))
      && (forall i :: 0 <= i < 256 ==>
        buckets[i].values != null ==>
          buckets[i].values as object != buckets && buckets[i].values as object != crc.table8)
      && crc.table8 as object != buckets
    }

    /** hashmap_new. */
    constructor (crc: Crc8.Crc8Table)
      requires crc.Valid()
      modifies crc, crc.table8
      ensures Valid() && fresh(Repr - {crc, crc.table8})
      ensures table == Empty() && num_entry == 0
    {
      this.crc := crc;
      num_entry := 0;
      var bs := NewBuckets();
      buckets := bs;
      table := Empty();
      new;
      if !crc.hinit { crc.Init(); }
      Repr := {this, buckets, crc, crc.table8} + set i | 0 <= i < 256 :: buckets[i];
      assert Shape();
    }

    /** The zeroed bucket array of hashmap_new. */
    static method NewBuckets() returns (bs: array<EntryList>)
      ensures fresh(bs) && bs.Length == 256
      ensures forall j :: 0 <= j < 256 ==>
        fresh(bs[j]) && bs[j].Valid() && bs[j].values == null && bs[j].Contents() == []
      ensures forall j, k :: 0 <= j < k < 256 ==> bs[j] != bs[k]
    {
      var first := new EntryList();
      bs := new EntryList[256](_ => first);
      for i := 1 to 256
        invariant bs[0] == first
        invariant forall j :: 0 <= j < i ==>
          fresh(bs[j]) && bs[j].Valid() && bs[j].values == null && bs[j].Contents() == []
        invariant forall j, k :: 0 <= j < k < i ==> bs[j] != bs[k]
      {
        var b := new EntryList();
        bs[i] := b;
      }
    }

    /** crc8_block on the key, as the index of a bucket. */
    method Index(key: string) returns (h: nat)
      requires Valid()
      ensures h == Hash(key)
    {
      var bytes := BytesOf(key);
      var c := crc.Block(bytes);
      Crc8.Power2Of8();
      h := Crc8.Value(c);
    }

    /** hashmap_put; more than 32768 entries in one bucket would overflow the 16-bit vroom. */
    method Put(key: string, value: int)
      requires Valid() && |table[Hash(key)]| < 0x8000
      modifies Repr
      ensures Valid() && fresh(Repr - old(Repr))
      ensures table == HashTable.Put(old(table), key, value)
      ensures num_entry == old(num_entry) + 1
    {
      var h := Index(key);
      AppendAt(h, Entry(key, value));
      num_entry := num_entry + 1;
      PutPlaced(old(table), key, value);
    }

    method AppendAt(h: nat, e: Entry)
      requires Shape() && h < 256 && |table[h]| < 0x8000
      modifies Repr
      ensures Shape() && fresh(Repr - old(Repr))
      ensures table == old(table)[h := old(table)[h] + [e]]
      ensures num_entry == old(num_entry)
    {
      AppendTo(h, e);
      ghost var room: array<Entry> := buckets[h].values;
      Repr := Repr + {room};
      table := table[h := table[h] + [e]];
    }

    /** Bucket h grows by an entry, and the others stay as they are. */
    method AppendTo(h: nat, e: Entry)
      requires Shape() && h < 256 && |table[h]| < 0x8000
      modifies buckets[h], buckets[h].values
      ensures crc.Valid() && crc.hinit && buckets[..] == old(buckets[..])
      ensures buckets[h].Valid() && buckets[h].Contents() == table[h] + [e]
      ensures buckets[h].values != null
      ensures buckets[h].values == old(buckets[h].values) || fresh(buckets[h].values)
      ensures forall i :: 0 <= i < 256 && i != h ==>
        && buckets[i].values == old(buckets[i].values)
        && buckets[i].Valid() && buckets[i].Contents() == table[i]
    {
      buckets[h].Append(e);
    }

    /** hashmap_get. */
    method Get(key: string) returns (value: int)
      requires Valid()
      ensures value == HashTable.Get(table, key)
    {
      var h := Index(key);
      var hel := buckets[h];
      var i := hel.Search(key);
      value := if i == hel.vlen then 0 else hel.values[i].value;
    }

    /** hashmap_remove; num_entry is left as it is. */
    method Remove(key: string) returns (value: int)
      requires Valid()
      modifies Repr
      ensures Valid() && Repr == old(Repr)
      ensures table == HashTable.Remove(old(table), key) && num_entry == old(num_entry)
      ensures value == HashTable.Get(old(table), key)
    {
      var h := Index(key);
      RemovePlaced(table, key);
      value := RemoveAt(h, key);
    }

    method RemoveAt(h: nat, key: string) returns (value: int)
      requires Shape() && h < 256
      modifies Repr
      ensures Shape() && Repr == old(Repr)
      ensures table == old(table)[h := Drop(old(table)[h], key)] && num_entry == old(num_entry)
      ensures value == GetIn(old(table)[h], key)
    {
      var hel := buckets[h];
      var i := hel.Search(key);
      DropShifts(table[h], key);
      if i == hel.vlen { return 0; }
      value := hel.values[i].value;
      DeleteAt(h, i);
    }

    method DeleteAt(h: nat, i: uint16)
      requires Shape() && h < 256 && i as int < |table[h]|
      modifies Repr
      ensures Shape() && Repr == old(Repr)
      ensures table == old(table)[h := old(table)[h][..i] + old(table)[h][i as int + 1..]]
      ensures num_entry == old(num_entry)
    {
      buckets[h].Delete(i);
      table := table[h := table[h][..i] + table[h][i as int + 1..]];
    }

    /** hashmap_empty. */
    method Clear()
      requires Valid()
      modifies Repr
      ensures Valid() && Repr == old(Repr)
      ensures table == Empty() && num_entry == old(num_entry)
    {
      for i := 0 to 256
        invariant Shape() && Repr == old(Repr) && num_entry == old(num_entry)
        invariant forall j :: 0 <= j < i ==> table[j] == []
      {
        ClearAt(i);
      }
      assert table == Empty();
    }

    method ClearAt(h: nat)
      requires Shape() && h < 256
      modifies Repr
      ensures Shape() && Repr == old(Repr)
      ensures table == old(table)[h := []] && num_entry == old(num_entry)
    {
      buckets[h].Clear();
      table := table[h := []];
    }

    /** hashmap_iterate: entries are passed to the callback bucket by bucket until it asks to stop. */
    method Iterate(stop: Entry -> bool) returns (r: int, visited: seq<Entry>)
      requires Valid()
      ensures r == 0 || r == -1
      ensures Visited(Flatten(table, 256), stop, r != 0, visited)
    {
      visited := [];
      for i := 0 to 256
        invariant Visited(Flatten(table, i), stop, false, visited)
      {
        var stopped, part := buckets[i].Visit(stop);
        VisitedConcat(Flatten(table, i), visited, table[i], part, stop, stopped);
        visited := visited + part;
        if stopped {
          FlattenPrefix(table, i + 1);
          return -1, visited;
        }
      }
      return 0, visited;
    }
  }

  /** The entries passed to the callback: all of them, or the ones up to the first that stops it. */
  ghost predicate Visited(all: seq<Entry>, stop: Entry -> bool, stopped: bool, visited: seq<Entry>) {
    && visited <= all
    && (forall k :: 0 <= k < |visited| - (if stopped then 1 else 0) ==> !stop(visited[k]))
    && (if stopped then visited != [] && stop(visited[|visited| - 1]) else visited == all)
  }

  lemma VisitedConcat(all1: seq<Entry>, v1: seq<Entry>, all2: seq<Entry>, v2: seq<Entry>,
                      stop: Entry -> bool, stopped: bool)
    requires Visited(all1, stop, false, v1) && Visited(all2, stop, stopped, v2)
    ensures Visited(all1 + all2, stop, stopped, v1 + v2)
  {
    forall k | 0 <= k < |v1 + v2| - (if stopped then 1 else 0)
      ensures !stop((v1 + v2)[k])
    {
      if |v1| <= k { assert (v1 + v2)[k] == v2[k - |v1|]; }
    }
    if stopped { assert (v1 + v2)[|v1 + v2| - 1] == v2[|v2| - 1]; }
  }

  lemma {:induction false} FlattenPrefix(t: Table, n: nat)
    requires n <= 256
    ensures Flatten(t, n) <= Flatten(t, 256)
    decreases 256 - n
  {
    if n < 256 { FlattenPrefix(t, n + 1); }
  }
}
