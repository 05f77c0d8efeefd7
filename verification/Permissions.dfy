/** Permission levels (src/permissions.c): a wildcard lookup over the hash table. */
module Permissions {
  import opened CStrings
  import opened Options
  import opened HashTable
  import HashMaps
  import Crc8

  const PERMS_HOP := 25000
  const PERMS_OP := 40000
  const OWNER_LEVEL := 100000

  /** permissions_set. */
  function SetLevel(t: Table, host: string, level: int): Table {
    Put(Forgotten(t, host), host, level)
  }

  /** A nonzero level is taken out before the new one is stored; 0 counts as absent. */
  function Forgotten(t: Table, host: string): Table {
    if Get(t, host) != 0 then Remove(t, host) else t
  }

  /** The exact level of each key. */
  type Levels = string -> int

  function LevelsOf(t: Table): Levels { key => Get(t, key) }

  function Starred(host: string, n: nat): string
    requires n <= |host|
  {
    host[..n] + "*"
  }

  /** permissions_get: the exact host, then its prefixes with a star, longest first. */
  function Lookup(levels: Levels, host: string): int {
    if levels(host) != 0 then levels(host) else Wildcard(levels, host, |host|)
  }

  function Wildcard(levels: Levels, host: string, n: nat): int
    requires n <= |host|
  {
    var level := levels(Starred(host, n));
    if level != 0 || n == 0 then level else Wildcard(levels, host, n - 1)
  }

  /** p is the longest length up to n for which the starred prefix has a level. */
  ghost predicate Longest(levels: Levels, host: string, p: nat, n: nat)
    requires n <= |host|
  {
    && p <= n && levels(host[..p] + "*") != 0
    && forall q :: p < q <= n ==> levels(host[..q] + "*") == 0
  }

  ghost predicate NoneUpTo(levels: Levels, host: string, n: nat)
    requires n <= |host|
  {
    forall p :: 0 <= p <= n ==> levels(host[..p] + "*") == 0
  }

  lemma {:induction false} WildcardIsLongest(levels: Levels, host: string, p: nat, n: nat)
    requires n <= |host| && Longest(levels, host, p, n)
    ensures Wildcard(levels, host, n) == levels(host[..p] + "*")
  {
    if p < n {
      assert levels(host[..n] + "*") == 0;
      WildcardIsLongest(levels, host, p, n - 1);
    }
  }

  lemma {:induction false} WildcardIsNone(levels: Levels, host: string, n: nat)
    requires n <= |host|
    ensures Wildcard(levels, host, n) == 0 <==> NoneUpTo(levels, host, n)
  {
    if levels(host[..n] + "*") == 0 && n > 0 {
      WildcardIsNone(levels, host, n - 1);
    }
  }

  /** Longest-prefix match: the exact entry wins, then the longest prefix with a star; the result is
      0 only when no probe has a level. */
  lemma LookupIsLongestPrefix(levels: Levels, host: string)
    ensures levels(host) != 0 ==> Lookup(levels, host) == levels(host)
    ensures levels(host) == 0 ==> forall p: nat ::
      Longest(levels, host, p, |host|) ==> Lookup(levels, host) == levels(host[..p] + "*")
    ensures Lookup(levels, host) == 0 <==> levels(host) == 0 && NoneUpTo(levels, host, |host|)
  {
    forall p: nat | Longest(levels, host, p, |host|)
      ensures Wildcard(levels, host, |host|) == levels(host[..p] + "*")
    {
      WildcardIsLongest(levels, host, p, |host|);
    }
    WildcardIsNone(levels, host, |host|);
  }

  // ---- the program -----------------------------------------------------------------------

  /** The key in pbuf when the loop variable len is n: the host itself, then starred prefixes. */
  function Probe(host: string, n: int): string
    requires -1 <= n <= |host|
  {
    if n == |host| then host else Starred(host, n + 1)
  }

  /** What the loop still returns when its next probe is that of n. */
  function Rest(levels: Levels, host: string, n: int): int
    requires -1 <= n <= |host|
  {
    if n == |host| then Lookup(levels, host) else Wildcard(levels, host, n + 1)
  }

  lemma RestStep(levels: Levels, host: string, n: int)
    requires -1 <= n <= |host|
    ensures var level := levels(Probe(host, n));
      Rest(levels, host, n) == if level != 0 || n < 0 then level else Rest(levels, host, n - 1)
  {
  }

  /** The lookup of this host stays inside the 128 bytes of pbuf: the host is copied with its terminator,
      and only a host without an exact level is extended by a star. */
  predicate FitsPbuf(levels: Levels, host: string) {
    |host| <= 126 || (|host| == 127 && levels(host) != 0)
  }

  class PermissionStore {
    const perm_map: HashMaps.HashMap
    const pbuf: array<char>
    var locked: bool

    ghost predicate Valid()
      reads perm_map, perm_map.Repr
    {
      && perm_map.Valid()
      && pbuf.Length == 128
      && pbuf !in perm_map.Repr && this !in perm_map.Repr
    }

    /** permissions_init; without BOT_OWNER_HOST there is no owner entry. */
    constructor (crc: Crc8.Crc8Table, owner: Option<string>)
      requires crc.Valid()
      modifies crc, crc.table8
      ensures Valid() && !locked
      ensures perm_map.table == Initial(owner)
    {
      perm_map := new HashMaps.HashMap(crc);
      pbuf := new char[128];
      locked := false;
      new;
      if owner.Some? {
        perm_map.Put(owner.value, OWNER_LEVEL);
      }
    }

    /** permissions_set. */
    method Set(host: string, level: int)
      requires Valid() && !locked
      requires |perm_map.table[Hash(host)]| < 0x8000
      modifies this, perm_map.Repr
      ensures Valid() && !locked
      ensures perm_map.table == SetLevel(old(perm_map.table), host, level)
    {
      locked := true;
      Forget(host);
      perm_map.Put(host, level);
      locked := false;
    }

    /** The first half of permissions_set. */
    method Forget(host: string)
      requires Valid()
      modifies perm_map.Repr
      ensures Valid() && perm_map.Repr == old(perm_map.Repr)
      ensures perm_map.table == Forgotten(old(perm_map.table), host)
      ensures |perm_map.table[Hash(host)]| <= |old(perm_map.table)[Hash(host)]|
    {
      var level := perm_map.Get(host);
      if level != 0 {
        var _ := perm_map.Remove(host);
      }
    }

    /** pbuf holds the probe of n, over an intact prefix of the host. */
    ghost predicate Holds(host: string, n: int)
      requires -1 <= n <= |host|
      reads pbuf
    {
      && pbuf.Length == 128
      && (forall k :: 0 <= k < |host| && k <= n && k < 128 ==> pbuf[k] == host[k])
      && CStr(pbuf[..]) == Probe(host, n)
    }

    /** The memcpy of the host with its terminator. */
    method CopyHost(host: string)
      requires pbuf.Length == 128 && NulFree(host) && |host| <= 127
      modifies pbuf
      ensures Holds(host, |host|)
    {
      forall i | 0 <= i <= |host| {
        pbuf[i] := if i < |host| then host[i] else NUL;
      }
      CStrIs(pbuf[..], host);
    }

    /** One rewriting step: a star after the first n bytes of the host. */
    method StarAt(host: string, n: nat)
      requires NulFree(host) && n <= |host| < 127 && Holds(host, n)
      modifies pbuf
      ensures Holds(host, n - 1)
    {
      pbuf[n] := '*';
      pbuf[n + 1] := NUL;
      CStrIs(pbuf[..], Starred(host, n));
    }

    /** The stored table answers with these levels. */
    ghost predicate Answers(levels: Levels)
      reads perm_map
    {
      forall key {:trigger HashTable.Get(perm_map.table, key)} :: HashTable.Get(perm_map.table, key) == levels(key)
    }

    /** hashmap_get on the string in pbuf. */
    method ProbeKey(ghost levels: Levels, ghost host: string, ghost n: int) returns (perm: int)
      requires Valid() && Answers(levels) && -1 <= n <= |host| && Holds(host, n)
      ensures perm == levels(Probe(host, n))
    {
      perm := perm_map.Get(CStr(pbuf[..]));
    }

    /** permissions_get. A host of 128 bytes, or of 127 without an exact level, would overrun pbuf; a
        longer one returns with the mutex still held. probes counts the table lookups. */
    method Get(host: string) returns (perm: int, probes: nat)
      requires Valid() && !locked && NulFree(host)
      requires FitsPbuf(LevelsOf(perm_map.table), host) || |host| > 128
      modifies this, pbuf
      ensures Valid() && perm_map.table == old(perm_map.table)
      ensures locked <==> |host| > 128
      ensures |host| > 128 ==> perm == 0 && probes == 0
      ensures |host| <= 128 ==> perm == Lookup(LevelsOf(perm_map.table), host) && probes <= |host| + 2
    {
      locked := true;
      if |host| > 128 { return 0, 0; }
      CopyHost(host);
      perm, probes := Search(LevelsOf(perm_map.table), host);
      assert perm_map.Valid();
      locked := false;
    }

    /** The loop of permissions_get: rewrite pbuf from right to left until a key has a level. */
    method Search(ghost levels: Levels, host: string) returns (perm: int, probes: nat)
      requires Valid() && Answers(levels) && NulFree(host) && FitsPbuf(levels, host) && Holds(host, |host|)
      modifies pbuf
      ensures perm == Lookup(levels, host) && probes <= |host| + 2
    {
      var len: int := |host|;
      perm := ProbeKey(levels, host, len);
      probes := 1;
      while perm == 0 && len >= 0
        invariant -1 <= len <= |host| && probes == |host| - len + 1
        invariant Holds(host, len) && (perm == 0 ==> |host| <= 126)
        invariant perm == levels(Probe(host, len))
        invariant Lookup(levels, host) == Rest(levels, host, len)
        decreases len
      {
        StarAt(host, len);
        RestStep(levels, host, len);
        len := len - 1;
        perm := ProbeKey(levels, host, len);
        probes := probes + 1;
      }
      RestStep(levels, host, len);
    }
  }

  function Initial(owner: Option<string>): Table {
    if owner.Some? then Put(Empty(), owner.value, OWNER_LEVEL) else Empty()
  }
}
