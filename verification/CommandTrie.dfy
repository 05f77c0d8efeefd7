/** The command tree (src/modules.c:22-126): a case-insensitive map from names to handlers. */
module CommandTrie {
  import opened CStrings
  import opened Options

  /** A function pointer that is not null. */
  type Handler = nat

  predicate IsLetter(c: char) { 'a' <= c <= 'z' || 'A' <= c <= 'Z' }

  /** The child index of a letter: upper case is moved to lower case first. */
  function Slot(c: char): (i: nat)
    requires IsLetter(c)
    ensures i < 26
  {
    ((if 'A' <= c <= 'Z' then c + 32 as char else c) - 'a') as nat
  }

  predicate IsName(s: string) { forall k :: 0 <= k < |s| ==> IsLetter(s[k]) }

  /** A case-folded name, as the child indices that lead to its node. */
  type Key = seq<nat>

  function Fold(s: string): (key: Key)
    requires IsName(s)
    ensures |key| == |s|
  {
    seq(|s|, k requires 0 <= k < |s| => Slot(s[k]))
  }

  /** The characters that may occur in a name. */
  lemma LettersAre(c: char)
    ensures IsLetter(c) <==> c in "abcdefghijklmnopqrstuvwxyz" || c in "ABCDEFGHIJKLMNOPQRSTUVWXYZ"
  {
    var lower, upper := "abcdefghijklmnopqrstuvwxyz", "ABCDEFGHIJKLMNOPQRSTUVWXYZ";
    assert forall k :: 0 <= k < 26 ==> lower[k] as int == 'a' as int + k && upper[k] as int == 'A' as int + k;
    if 'a' <= c <= 'z' { assert lower[c as int - 'a' as int] == c; }
    if 'A' <= c <= 'Z' { assert upper[c as int - 'A' as int] == c; }
  }

  predicate SameLetter(a: char, b: char) {
    a == b || a as int == b as int + 32 || b as int == a as int + 32
  }

  /** Two names have the same key exactly when they agree up to case. */
  lemma FoldIgnoresCase(s: string, t: string)
    requires IsName(s) && IsName(t)
    ensures Fold(s) == Fold(t) <==> |s| == |t| && forall k :: 0 <= k < |s| ==> SameLetter(s[k], t[k])
  {
    if |s| == |t| {
      forall k | 0 <= k < |s| ensures Fold(s)[k] == Fold(t)[k] <==> SameLetter(s[k], t[k]) {
      }
    }
  }

  /** The number of letters a word starts with. */
  function Letters(s: string): (n: nat)
    ensures n <= |s| && IsName(s[..n]) && (n < |s| ==> !IsLetter(s[n]))
    ensures IsName(s) <==> n == |s|
  {
    LettersFrom(s, 0)
  }

  function LettersFrom(s: string, i: nat): (n: nat)
    requires i <= |s|
    ensures i <= n <= |s| && (forall k :: i <= k < n ==> IsLetter(s[k])) && (n < |s| ==> !IsLetter(s[n]))
    decreases |s| - i
  {
    if i == |s| || !IsLetter(s[i]) then i else LettersFrom(s, i + 1)
  }

  /** How many nodes on the way to a key are still missing. */
  function Missing(keys: set<Key>, key: Key): nat {
    if key == [] || key in keys then 0 else 1 + Missing(keys, Parent(key))
  }

  /** The path without its last step. */
  function Parent(key: Key): Key
    requires key != []
  {
    key[..|key| - 1]
  }

  /** Every node but the root hangs off a node of its set. */
  ghost predicate Rooted(keys: set<Key>) {
    forall p {:trigger Parent(p)} :: p in keys && p != [] ==> Parent(p) in keys && p[|p| - 1] < 26
  }

  lemma RootedSnoc(keys: set<Key>, p: Key, slot: nat)
    requires Rooted(keys) && p in keys && slot < 26
    ensures Rooted(keys + {p + [slot]})
    ensures p + [slot] !in keys ==> forall i :: p + [slot] + [i] !in keys
  {
    assert Parent(p + [slot]) == p;
    forall i ensures Parent(p + [slot] + [i]) == p + [slot] {
    }
    forall q | q in keys + {p + [slot]} && q != []
      ensures Parent(q) in keys + {p + [slot]} && q[|q| - 1] < 26
    {
      if q in keys { assert Parent(q) in keys; }
    }
  }

  lemma FoldSnoc(s: string, n: nat)
    requires n < |s| && IsName(s[..n + 1])
    ensures IsName(s[..n]) && IsLetter(s[n]) && Fold(s[..n + 1]) == Fold(s[..n]) + [Slot(s[n])]
  {
    assert s[..n + 1][..n] == s[..n] && s[..n + 1][n] == s[n];
    assert forall k :: 0 <= k < n ==> s[..n][k] == s[..n + 1][k];
  }

  lemma LettersPrefix(s: string, n: nat)
    requires n <= Letters(s)
    ensures IsName(s[..n])
  {
    assert forall k :: 0 <= k < n ==> s[..n][k] == s[..Letters(s)][k];
  }

  lemma {:induction false} MissingGrows(keys: set<Key>, s: string, n: nat, m: nat)
    requires Rooted(keys) && n <= m <= Letters(s)
    ensures IsName(s[..n]) && IsName(s[..m])
    ensures Missing(keys, Fold(s[..n])) <= Missing(keys, Fold(s[..m]))
    ensures Fold(s[..m]) in keys ==> Fold(s[..n]) in keys
    decreases m
  {
    LettersPrefix(s, n);
    LettersPrefix(s, m);
    if n < m {
      MissingGrows(keys, s, n, m - 1);
      FoldSnoc(s, m - 1);
      assert Parent(Fold(s[..m])) == Fold(s[..m - 1]);
    }
  }

  /** What modules_register_cmd returns when budget more nodes can be allocated. */
  function RegisterResult(keys: set<Key>, name: string, budget: nat): int {
    var n := Letters(name);
    if Missing(keys, Fold(name[..n])) > budget then -2 else if n < |name| then -1 else 0
  }

  lemma RegisterExit(keys: set<Key>, name: string, i: nat, budget: nat)
    requires Rooted(keys) && i <= Letters(name) && IsName(name[..i])
    ensures var missing := Missing(keys, Fold(name[..i]));
      && (missing > budget ==> RegisterResult(keys, name, budget) == -2)
      && (missing <= budget && i == Letters(name) ==>
        RegisterResult(keys, name, budget) == if i < |name| then -1 else 0)
  {
    MissingGrows(keys, name, i, Letters(name));
  }

  /** What modules_unregister_cmd returns. */
  function UnregisterResult(keys: set<Key>, name: string): int {
    var n := Letters(name);
    if Fold(name[..n]) !in keys then -3 else if n < |name| then -1 else 0
  }

  /** With room for all its nodes a registration succeeds exactly for a name; a name is unregistered
      exactly if its node exists; otherwise a text is refused at its first other character, or because
      the tree ends before that. */
  lemma ResultCodes(keys: set<Key>, name: string, budget: nat)
    requires Rooted(keys) && budget >= |name|
    ensures RegisterResult(keys, name, budget) == if IsName(name) then 0 else -1
    ensures IsName(name) ==> UnregisterResult(keys, name) == if Fold(name) in keys then 0 else -3
    ensures !IsName(name) ==>
      UnregisterResult(keys, name) == if Fold(name[..Letters(name)]) in keys then -1 else -3
    ensures IsName(name) && Fold(name) in keys ==> RegisterResult(keys, name, 0) == 0
    ensures IsName(name) && name != "" && Fold(name) !in keys ==> RegisterResult(keys, name, 0) == -2
  {
    MissingAtMost(keys, Fold(name[..Letters(name)]));
    assert name[..|name|] == name;
  }

  lemma {:induction false} MissingAtMost(keys: set<Key>, key: Key)
    ensures Missing(keys, key) <= |key|
  {
    if key != [] && key !in keys { MissingAtMost(keys, Parent(key)); }
  }

  lemma SnocInjective(p: Key, i: nat, q: Key, j: nat)
    ensures p + [i] == q + [j] <==> p == q && i == j
    ensures p + [i] != p && p + [i] != []
  {
    if p + [i] == q + [j] {
      assert (p + [i])[..|p|] == p && (q + [j])[..|q|] == q;
      assert (p + [i])[|p|] == i && (q + [j])[|q|] == j;
    }
    assert |p + [i]| == |p| + 1;
  }

  /** q lies below p, by a step less than n. */
  ghost predicate Under(p: Key, n: nat, q: Key) {
    p < q && q[|p|] < n
  }

  ghost function Pruned<V>(m: map<Key, V>, p: Key, n: nat): map<Key, V> {
    map q | q in m && !Under(p, n, q) :: m[q]
  }

  ghost function Without<V>(m: map<Key, V>, c: Key): map<Key, V> {
    map q | q in m && !(c <= q) :: m[q]
  }

  lemma PrunedNext<V>(m: map<Key, V>, p: Key, n: nat)
    ensures Pruned(m, p, n + 1) == Without(Pruned(m, p, n), p + [n])
  {
    forall q ensures Under(p, n + 1, q) <==> Under(p, n, q) || p + [n] <= q {
    }
  }

  /** All steps of a path are child indices, and all its prefixes have nodes. */
  lemma {:induction false} StepsSmall(keys: set<Key>, q: Key, k: nat)
    requires Rooted(keys) && q in keys && k < |q|
    ensures q[k] < 26 && q[..k] in keys && q[..k + 1] in keys
    decreases |q|
  {
    assert Parent(q) in keys;
    if k < |q| - 1 {
      StepsSmall(keys, Parent(q), k);
      assert Parent(q)[..k] == q[..k] && Parent(q)[..k + 1] == q[..k + 1];
    } else {
      assert q[..k + 1] == q;
    }
  }

  lemma PrefixCases(c: Key, q: Key)
    ensures c <= q <==> c < q || c == q
  {
    if c <= q && |c| == |q| { assert c == q[..|c|] == q; }
  }

  lemma PrefixIs(c: Key, q: Key)
    requires c < q
    ensures q[..|c|] == c
  {
  }

  lemma NothingBelow(keys: set<Key>, c: Key)
    requires Rooted(keys) && c !in keys
    ensures forall q :: q in keys ==> !(c <= q)
  {
    forall q | q in keys ensures !(c <= q) {
      PrefixCases(c, q);
      if c < q {
        StepsSmall(keys, q, |c|);
        PrefixIs(c, q);
      }
    }
  }

  lemma BelowIsStrict(keys: set<Key>, p: Key, i: nat)
    requires p + [i] in keys
    ensures (set q | q in keys && p + [i] < q) < (set q | q in keys && p < q)
  {
    var c := p + [i];
    var above, below := set q | q in keys && p < q, set q | q in keys && c < q;
    assert c[..|p|] == p;
    assert c in above && c !in below;
    forall q | q in below ensures q in above {
      assert q[..|p|] == c[..|p|];
    }
    assert below < above;
  }

  lemma PrunedAll<V>(m: map<Key, V>, keys: set<Key>, c: Key)
    requires Rooted(keys) && m.Keys <= keys
    ensures Without(m, c) == Pruned(m, c, 26) - {c}
    ensures forall q :: q in Pruned(m, c, 26) ==> !(c < q)
  {
    forall q | q in m ensures c <= q <==> Under(c, 26, q) || q == c {
      PrefixCases(c, q);
      if c < q { StepsSmall(keys, q, |c|); }
    }
  }

  lemma RootedMinus(keys: set<Key>, c: Key)
    requires Rooted(keys) && forall q :: q in keys ==> !(c < q)
    ensures Rooted(keys - {c})
  {
    forall q | q in keys - {c} && q != [] ensures Parent(q) in keys - {c} && q[|q| - 1] < 26 {
      assert Parent(q) in keys;
      assert Parent(q) < q;
    }
  }

  /** struct command_tree; the 26 child pointers are part of the node itself. */
  class Node {
    var handler: Option<Handler>
    var children: seq<Node?>

    constructor ()
      ensures handler == None && children == seq(26, _ => null)
    {
      handler, children := None, seq(26, _ => null);
    }
  }

  class Trie {
    const cmds: Node
    /** The nodes in use, by the path that leads to each. */
    ghost var nodes: map<Key, Node>
    /** The bound names. */
    ghost var bindings: map<Key, Handler>

    /** The nodes form a tree: each is reached by its own path only, and none is shared. */
    ghost predicate Valid()
      reads this, nodes.Values
    {
      && [] in nodes && nodes[[]] == cmds
      && (forall p, q :: p in nodes && q in nodes && p != q ==> nodes[p] != nodes[q])
      && (forall p :: p in nodes ==> Linked(p))
      && Rooted(nodes.Keys)
      && bindings.Keys <= nodes.Keys
      && (forall p :: p in nodes ==>
        nodes[p].handler == if p in bindings then Some(bindings[p]) else None)
    }

    /** The children of a node are the nodes one letter further on. */
    ghost predicate Linked(p: Key)
      requires p in nodes
      reads this, nodes.Values
    {
      && |nodes[p].children| == 26
      && forall i: nat {:trigger nodes[p].children[i]} :: i < 26 ==> nodes[p].children[i] == NodeAt(p + [i])
    }

    ghost function NodeAt(p: Key): Node?
      reads this
    {
      if p in nodes then nodes[p] else null
    }

    constructor ()
      ensures Valid() && fresh(nodes.Values) && bindings == map[]
    {
      cmds := new Node();
      nodes := map[[] := cmds];
      bindings := map[];
    }

    /** No node was lost or moved since then. */
    ghost predicate Extended(before: map<Key, Node>)
      reads this
    {
      forall k :: k in before ==> k in nodes && nodes[k] == before[k]
    }

    /** One step down; a missing child is allocated while the budget of free nodes lasts. */
    method Descend(ghost p: Key, ptr: Node, slot: nat, budget: nat) returns (next: Node?, left: nat)
      requires Valid() && p in nodes && nodes[p] == ptr && slot < 26
      modifies this`nodes, ptr`children
      ensures Valid() && Extended(old(nodes))
      ensures forall k :: k in nodes && k !in old(nodes) ==> fresh(nodes[k])
      ensures next == null <==> p + [slot] !in old(nodes) && budget == 0
      ensures next == null ==> nodes == old(nodes) && left == budget
      ensures next != null ==> nodes == old(nodes)[p + [slot] := next]
      ensures next != null ==> left == if p + [slot] in old(nodes) then budget else budget - 1
    {
      left := budget;
      if ptr.children[slot] == null && budget > 0 {
        Grow(p, ptr, slot);
        left := budget - 1;
      }
      next := ptr.children[slot];
    }

    method Grow(ghost p: Key, ptr: Node, slot: nat)
      requires Valid() && p in nodes && nodes[p] == ptr && slot < 26 && p + [slot] !in nodes
      modifies this`nodes, ptr`children
      ensures Valid() && p + [slot] in nodes && fresh(nodes[p + [slot]])
      ensures nodes == old(nodes)[p + [slot] := nodes[p + [slot]]]
    {
      var node := new Node();
      ghost var here := p + [slot];
      RootedSnoc(nodes.Keys, p, slot);
      ptr.children := ptr.children[slot := node];
      nodes := nodes[here := node];
      assert nodes.Keys == old(nodes.Keys) + {here};
      forall q | q in nodes ensures Linked(q) {
        forall i: nat | i < 26 ensures nodes[q].children[i] == NodeAt(q + [i]) {
          SnocInjective(p, slot, q, i);
          if q == here {
            SnocInjective(here, i, p, slot);
            assert here + [i] !in old(nodes);
          } else {
            assert old(nodes[q].children[i]) == old(NodeAt(q + [i]));
          }
        }
      }
    }

    method SetHandler(ghost p: Key, ptr: Node, handler: Option<Handler>)
      requires Valid() && p in nodes && nodes[p] == ptr
      modifies this`bindings, ptr`handler
      ensures Valid()
      ensures bindings == if handler.Some? then old(bindings)[p := handler.value] else old(bindings) - {p}
    {
      ptr.handler := handler;
      bindings := if handler.Some? then bindings[p := handler.value] else bindings - {p};
    }

    /** The first i letters of the name have been walked, starting from the nodes keys. */
    ghost predicate Walked(keys: set<Key>, name: string, i: nat, ptr: Node, left: nat, budget: nat)
      reads this
    {
      && i <= Letters(name) && IsName(name[..i])
      && NodeAt(Fold(name[..i])) == ptr
      && keys <= nodes.Keys && Rooted(keys)
      && (forall k :: k in nodes.Keys ==> k in keys || |k| <= i)
      && left + Missing(keys, Fold(name[..i])) == budget
    }

    method Step(ghost keys: set<Key>, name: string, i: nat, ptr: Node, left: nat, ghost budget: nat)
      returns (next: Node?, left': nat)
      requires Valid() && Walked(keys, name, i, ptr, left, budget)
      requires i < |name| && IsLetter(name[i])
      modifies this`nodes, ptr`children
      ensures Valid() && Extended(old(nodes))
      ensures forall k :: k in nodes && k !in old(nodes) ==> fresh(nodes[k])
      ensures i < Letters(name) && IsName(name[..i + 1])
      ensures next == null ==> Missing(keys, Fold(name[..i + 1])) > budget
      ensures next != null ==> Walked(keys, name, i + 1, next, left', budget)
    {
      LettersPrefix(name, i + 1);
      FoldSnoc(name, i);
      ghost var key := Fold(name[..i]);
      assert Parent(key + [Slot(name[i])]) == key;
      next, left' := Descend(key, ptr, Slot(name[i]), left);
    }

    /** The loop of modules_register_cmd: walk the tree, adding the nodes that are missing. */
    method WalkDown(name: string, budget: nat) returns (i: nat, ptr: Node?)
      requires Valid() && NulFree(name)
      modifies this`nodes, nodes.Values`children
      ensures Valid() && Extended(old(nodes))
      ensures forall k :: k in nodes && k !in old(nodes) ==> fresh(nodes[k])
      ensures i <= Letters(name) && IsName(name[..i])
      ensures ptr == null ==> Missing(old(nodes.Keys), Fold(name[..i])) > budget
      ensures ptr != null ==> Missing(old(nodes.Keys), Fold(name[..i])) <= budget
      ensures ptr != null ==> i == Letters(name) && NodeAt(Fold(name[..i])) == ptr
    {
      ghost var keys := nodes.Keys;
      ptr := cmds;
      i := 0;
      var left := budget;
      assert name[..0] == "";
      while ptr != null
        invariant i <= Letters(name) && IsName(name[..i]) && Valid()
        invariant ptr != null ==> Walked(keys, name, i, ptr, left, budget)
        invariant ptr == null ==> Missing(keys, Fold(name[..i])) > budget
        invariant Extended(old(nodes))
        invariant forall k :: k in nodes && k !in old(nodes) ==> fresh(nodes[k])
        decreases Letters(name) - i, ptr != null
      {
        if i == |name| || !IsLetter(name[i]) {
          return;
        }
        ptr, left := Step(keys, name, i, ptr, left, budget);
        i := i + 1;
      }
    }

    /** modules_register_cmd. A name that is refused or meets a full heap binds nothing, even though
        nodes may have been added on the way. */
    method Register(name: string, handler: Handler, budget: nat) returns (r: int)
      requires Valid() && NulFree(name)
      modifies this`nodes, this`bindings, nodes.Values
      ensures Valid() && Extended(old(nodes))
      ensures forall k :: k in nodes && k !in old(nodes) ==> fresh(nodes[k])
      ensures r == RegisterResult(old(nodes.Keys), name, budget)
      ensures bindings == if r == 0 then old(bindings)[Fold(name) := handler] else old(bindings)
    {
      var i, ptr := WalkDown(name, budget);
      RegisterExit(old(nodes.Keys), name, i, budget);
      if ptr == null { return -2; }
      if i < |name| { return -1; }
      assert name[..i] == name;
      SetHandler(Fold(name), ptr, Some(handler));
      return 0;
    }

    /** modules_unregister_cmd. */
    method Unregister(name: string) returns (r: int)
      requires Valid() && NulFree(name)
      modifies this`bindings, nodes.Values
      ensures Valid() && r == UnregisterResult(nodes.Keys, name)
      ensures bindings == if IsName(name) then old(bindings) - {Fold(name)} else old(bindings)
    {
      ghost var n := Letters(name);
      var ptr: Node? := cmds;
      var i := 0;
      assert name[..0] == "" && name[..|name|] == name;
      while ptr != null
        invariant i <= n && Valid() && bindings == old(bindings)
        invariant IsName(name[..i]) && ptr == NodeAt(Fold(name[..i]))
        decreases n - i, ptr != null
      {
        if i == |name| {
          SetHandler(Fold(name[..i]), ptr, None);
          return 0;
        }
        if !IsLetter(name[i]) {
          return -1;
        }
        LettersPrefix(name, i + 1);
        FoldSnoc(name, i);
        ptr := ptr.children[Slot(name[i])];
        i := i + 1;
      }
      MissingGrows(nodes.Keys, name, i, n);
      return -3;
    }

    /** modules_cmds_clean on the subtree at p: its children are cleaned, freed and unlinked. */
    method Clean(root: Node, ghost p: Key)
      requires Valid() && p in nodes && nodes[p] == root
      modifies this`nodes, this`bindings, nodes.Values`children
      ensures Valid()
      ensures nodes == Pruned(old(nodes), p, 26) && bindings == Pruned(old(bindings), p, 26)
      decreases set q | q in nodes && p < q, 2
    {
      for i := 0 to 26
        invariant Valid() && p in nodes && nodes[p] == root
        invariant nodes == Pruned(old(nodes), p, i) && bindings == Pruned(old(bindings), p, i)
      {
        PrunedNext(old(nodes), p, i);
        PrunedNext(old(bindings), p, i);
        CleanSlot(root, p, i);
      }
    }

    method CleanSlot(root: Node, ghost p: Key, i: nat)
      requires Valid() && p in nodes && nodes[p] == root && i < 26
      modifies this`nodes, this`bindings, nodes.Values`children
      ensures Valid() && p in nodes && nodes[p] == root
      ensures nodes == Without(old(nodes), p + [i]) && bindings == Without(old(bindings), p + [i])
      decreases set q | q in nodes && p < q, 1
    {
      if root.children[i] != null {
        CleanChild(root, p, i);
      } else {
        NothingBelow(nodes.Keys, p + [i]);
        assert nodes == Without(nodes, p + [i]) && bindings == Without(bindings, p + [i]);
      }
    }

    method CleanChild(root: Node, ghost p: Key, i: nat)
      requires Valid() && p in nodes && nodes[p] == root && i < 26 && p + [i] in nodes
      modifies this`nodes, this`bindings, nodes.Values`children
      ensures Valid() && p in nodes && nodes[p] == root
      ensures nodes == Without(old(nodes), p + [i]) && bindings == Without(old(bindings), p + [i])
      decreases set q | q in nodes && p < q, 0
    {
      ghost var c := p + [i];
      assert p < c;
      BelowIsStrict(nodes.Keys, p, i);
      Clean(root.children[i], c);
      PrunedAll(old(nodes), old(nodes.Keys), c);
      PrunedAll(old(bindings), old(nodes.Keys), c);
      Unlink(root, p, i);
    }

    /** Free a child that has no children left. */
    method Unlink(root: Node, ghost p: Key, i: nat)
      requires Valid() && p in nodes && nodes[p] == root && i < 26
      requires forall q :: q in nodes ==> !(p + [i] < q)
      modifies this`nodes, this`bindings, root`children
      ensures Valid() && nodes == old(nodes) - {p + [i]} && bindings == old(bindings) - {p + [i]}
    {
      ghost var here := p + [i];
      RootedMinus(nodes.Keys, here);
      SnocInjective(p, i, p, i);
      root.children := root.children[i := null];
      nodes := nodes - {here};
      bindings := bindings - {here};
      assert nodes.Keys == old(nodes.Keys) - {here};
      forall q | q in nodes ensures Linked(q) {
        forall j: nat | j < 26 ensures nodes[q].children[j] == NodeAt(q + [j]) {
          SnocInjective(p, i, q, j);
          assert old(nodes[q].children[j]) == old(NodeAt(q + [j]));
        }
      }
    }

    /** After cleaning from the root only the empty name can still be bound. */
    method CleanAll()
      requires Valid()
      modifies this`nodes, this`bindings, nodes.Values`children
      ensures Valid() && nodes == map[[] := cmds]
      ensures bindings == if [] in old(bindings) then map[[] := old(bindings)[[]]] else map[]
    {
      ghost var keys := nodes.Keys;
      Clean(cmds, []);
      forall q | q in keys && q != [] ensures Under([], 26, q) {
        StepsSmall(keys, q, 0);
      }
    }
  }
}
