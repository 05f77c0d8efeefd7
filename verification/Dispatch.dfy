/** Looking up the command of a message (src/modules.c:129-183). */
module Dispatch {
  import opened CStrings
  import opened Options
  import opened CommandTrie

  /** What is queued in the thread pool. */
  datatype Job = Job(handler: Handler, cmdname: string, from: string, place: string, args: string)

  /** The job for a text that starts with a command name: its handler, the name as it was typed, and
      what follows the first space. */
  function JobFor(bindings: map<Key, Handler>, from: string, place: string, text: string): Option<Job> {
    var w := IndexOf(text, ' ');
    var word := text[..w];
    if IsName(word) && Fold(word) in bindings
    then Some(Job(bindings[Fold(word)], word, from, place, if w < |text| then text[w + 1..] else ""))
    else None
  }

  /** The program: the prefix is compared whole, but only one byte of it is skipped. */
  function Dispatched(bindings: map<Key, Handler>, prefix: string,
                      from: string, place: string, message: string): Option<Job>
  {
    if |prefix| + 1 > |message| || !(prefix <= message) then None
    else JobFor(bindings, from, place, message[1..])
  }

  /** The documented behaviour: a command follows the whole prefix. */
  function Intended(bindings: map<Key, Handler>, prefix: string,
                    from: string, place: string, message: string): Option<Job>
  {
    if |prefix| + 1 > |message| || !(prefix <= message) then None
    else JobFor(bindings, from, place, message[|prefix|..])
  }

  /** modules_check_cmd: the walk through the tree finds exactly the bound names. */
  method CheckCmd(trie: Trie, prefix: string, from: string, place: string, message: string)
    returns (job: Option<Job>)
    requires trie.Valid() && NulFree(message)
    ensures job == Dispatched(trie.bindings, prefix, from, place, message)
  {
    if |prefix| + 1 > |message| { return None; }
    if !(prefix <= message) { return None; }
    job := Walk(trie, from, place, message[1..]);
  }

  method Walk(trie: Trie, from: string, place: string, text: string) returns (job: Option<Job>)
    requires trie.Valid()
    ensures job == JobFor(trie.bindings, from, place, text)
  {
    ghost var w := IndexOf(text, ' ');
    var ptr: Node? := trie.cmds;
    var i := 0;
    assert text[..0] == "";
    while ptr != null
      invariant i <= w && IsName(text[..i])
      invariant ptr == trie.NodeAt(Fold(text[..i]))
      decreases w - i, ptr != null
    {
      if i == |text| || text[i] == ' ' {
        if ptr.handler.None? { return None; }
        return Some(Job(ptr.handler.value, text[..i], from, place, if i < |text| then text[i + 1..] else ""));
      }
      if !IsLetter(text[i]) {
        assert text[..w][i] == text[i];
        return None;
      }
      NameSnoc(text, i);
      FoldSnoc(text, i);
      ptr := ptr.children[Slot(text[i])];
      i := i + 1;
    }
    NoNodeNoName(trie, text, i, w);
    return None;
  }

  lemma NameSnoc(text: string, i: nat)
    requires i < |text| && IsName(text[..i]) && IsLetter(text[i])
    ensures IsName(text[..i + 1])
  {
    assert forall k :: 0 <= k < i ==> text[..i + 1][k] == text[..i][k];
  }

  /** Where the tree ends, no longer name is bound. */
  lemma NoNodeNoName(trie: Trie, text: string, i: nat, w: nat)
    requires trie.Valid() && i <= w <= |text| && IsName(text[..i])
    requires trie.NodeAt(Fold(text[..i])) == null
    ensures IsName(text[..w]) ==> Fold(text[..w]) !in trie.bindings
  {
    if IsName(text[..w]) {
      var key := Fold(text[..w]);
      assert Fold(text[..i]) <= key by {
        assert forall k :: 0 <= k < i ==> text[..i][k] == text[..w][k];
      }
      NothingBelow(trie.nodes.Keys, Fold(text[..i]));
    }
  }

  // ---- what is dispatched --------------------------------------------------------------------

  /** A typed command: a prefix byte, a name, and after a space the arguments, if any. */
  function Command(prefix: char, name: string, args: Option<string>): string {
    [prefix] + name + (if args.Some? then " " + args.value else "")
  }

  /** A word that is followed by a space or by nothing. */
  lemma WordOf(word: string, args: Option<string>)
    requires ' ' !in word
    ensures var text := word + (if args.Some? then " " + args.value else "");
      && IndexOf(text, ' ') == |word| && text[..|word|] == word
      && (args.None? ==> |text| == |word|) && (args.Some? ==> text[|word| + 1..] == args.value)
  {
    var text := word + (if args.Some? then " " + args.value else "");
    assert forall k :: 0 <= k < |word| ==> text[k] == word[k] && word[k] in word;
    assert args.Some? ==> text[|word|] == ' ';
  }

  lemma CommandText(prefix: char, word: string, args: Option<string>)
    ensures Command(prefix, word, args)[1..] == word + (if args.Some? then " " + args.value else "")
    ensures [prefix] <= Command(prefix, word, args)
    ensures |Command(prefix, word, args)| >= 2 <==> word != "" || args.Some?
  {
  }

  lemma NamesHaveNoSpace(name: string)
    requires IsName(name)
    ensures ' ' !in name
  {
  }

  /** A command is queued exactly when its name is bound, with that handler, the name as typed, and the
      arguments, which are empty if there are none; a prefix alone is no command. */
  lemma CommandDispatches(bindings: map<Key, Handler>, prefix: char, from: string, place: string,
                          name: string, args: Option<string>)
    requires IsName(name)
    ensures Dispatched(bindings, [prefix], from, place, Command(prefix, name, args)) ==
      if Fold(name) in bindings && (name != "" || args.Some?)
      then Some(Job(bindings[Fold(name)], name, from, place, if args.Some? then args.value else ""))
      else None
  {
    NamesHaveNoSpace(name);
    WordOf(name, args);
    CommandText(prefix, name, args);
  }

  /** A word with anything but letters in it is no command, and neither is a message without the prefix. */
  lemma NoCommand(bindings: map<Key, Handler>, prefix: char, from: string, place: string,
                  word: string, args: Option<string>, message: string)
    requires ' ' !in word && !IsName(word)
    requires message == "" || message[0] != prefix
    ensures Dispatched(bindings, [prefix], from, place, Command(prefix, word, args)) == None
    ensures Dispatched(bindings, [prefix], from, place, message) == None
  {
    WordOf(word, args);
    CommandText(prefix, word, args);
  }

  // ---- the prefix --------------------------------------------------------------------------

  ghost predicate AlwaysIntended(prefix: string) {
    forall bindings, from, place, message ::
      Dispatched(bindings, prefix, from, place, message) == Intended(bindings, prefix, from, place, message)
  }

  /** The program does what is documented for every message exactly when the prefix is one byte. */
  lemma PrefixMustBeOneByte(prefix: string)
    ensures AlwaysIntended(prefix) <==> |prefix| == 1
  {
    if |prefix| != 1 {
      var message := prefix + "a";
      var bindings: map<Key, Handler> := map[[0] := 1];
      assert message[|prefix|..] == "a";
      assert IndexOf("a", ' ') == 1 && "a"[..1] == "a";
      assert Fold("a") == [0];
      var job := Dispatched(bindings, prefix, "", "", message);
      assert Intended(bindings, prefix, "", "", message) == Some(Job(1, "a", "", "", ""));
      if prefix == "" {
        assert message[1..] == "";
        assert Fold("") == [];
      } else {
        OtherJob(bindings, message[1..]);
      }
      assert job != Intended(bindings, prefix, "", "", message);
    }
  }

  /** A longer text that ends in a letter never gives the job of that single letter. */
  lemma OtherJob(bindings: map<Key, Handler>, text: string)
    requires |text| >= 2 && text[|text| - 1] == 'a'
    ensures var job := JobFor(bindings, "", "", text);
      job.Some? ==> job.value.cmdname != "a" || job.value.args != ""
  {
    var w := IndexOf(text, ' ');
    if w < |text| {
      assert w < |text| - 1;
      assert |text[w + 1..]| > 0;
    }
  }
}
