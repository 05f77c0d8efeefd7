/** From the byte stream to the job queue: the parts of src/irc.c and src/modules.c put together. */
module Delivery {
  import opened CStrings
  import opened Options
  import opened IrcFraming
  import opened IrcParse
  import opened IrcMessages
  import opened CommandTrie
  import opened Dispatch

  predicate Text(s: string) { '\r' !in s && '\n' !in s && NUL !in s }

  lemma FilterKeepsText(s: string)
    requires Text(s)
    ensures Filter(s) == s
  {
    assert forall k :: 0 <= k < |s| ==> s[k] in s;
  }

  /** A command typed into a channel, or to the bot itself, goes through the server, the receive loop, the
      tokeniser and the tree, and is queued exactly when its name is bound: with that name's handler,
      the sender, the place to answer and the arguments, all unchanged. This is so for every way of
      reading it that splits no CR LF, as far as the relayed line has room in the loop's buffer. */
  lemma CommandReachesItsHandler(bindings: map<Key, Handler>, prefix: char, sender: string, chan: string,
                                 name: string, args: Option<string>, chunks: seq<string>)
    requires Word(sender) && Word(chan) && IsName(name) && (args.Some? ==> Text(args.value)) && Text([prefix])
    requires |Format(chan, Command(prefix, name, args))| <= 511
    requires Concat(chunks) == Relayed(sender, chan, Command(prefix, name, args)) && NeverSplits(chunks)
    ensures Fits(chunks) <==> |Relayed(sender, chan, Command(prefix, name, args))| <= MAX_LINE
    ensures var events, target := Events(FeedAll(chunks).lines), TargetOf(sender, chan);
      && |events| == 1 && events[0].Check?
      && Dispatched(bindings, [prefix], events[0].user, events[0].target, events[0].message) ==
        if Fold(name) in bindings && (name != "" || args.Some?)
        then Some(Job(bindings[Fold(name)], name, sender, target, if args.Some? then args.value else ""))
        else None
  {
    var message := Command(prefix, name, args);
    CommandIsText(prefix, name, args);
    FilterKeepsText(message);
    PrintParse(sender, chan, message, chunks);
    CommandDispatches(bindings, prefix, sender, TargetOf(sender, chan), name, args);
  }

  lemma CommandIsText(prefix: char, name: string, args: Option<string>)
    requires IsName(name) && (args.Some? ==> Text(args.value)) && Text([prefix])
    ensures Text(Command(prefix, name, args))
  {
    var message := Command(prefix, name, args);
    forall c | c in message ensures c != '\r' && c != '\n' && c != NUL {
      assert c in [prefix] || c in name || c == ' ' || (args.Some? && c in args.value);
    }
  }
}
