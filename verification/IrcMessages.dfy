/** Messages the bot prints, and that they parse back (src/irc.c:10-20, src/irc.c:58-72). */
module IrcMessages {
  import opened CStrings
  import opened Options
  import opened IrcFraming
  import opened IrcParse

  // ---- printing ----------------------------------------------------------------------------

  /** irc_filter: line breaks become spaces. */
  function Filter(s: string): (r: string)
    ensures |r| == |s|
  {
    seq(|s|, i requires 0 <= i < |s| => if s[i] == '\r' || s[i] == '\n' then ' ' else s[i])
  }

  /** What filtering means: it works on each byte alone, CR and LF become a space, and nothing else
      changes. */
  lemma FilterBytes(a: string, c: char)
    ensures Filter(a + [c]) == Filter(a) + [if c in {'\r', '\n'} then ' ' else c]
    ensures '\r' !in Filter(a) && '\n' !in Filter(a)
    ensures '\r' !in a && '\n' !in a ==> Filter(a) == a
  {
    forall k | 0 <= k < |a| ensures Filter(a + [c])[k] == Filter(a)[k] {
    }
    if '\r' !in a && '\n' !in a {
      assert forall k :: 0 <= k < |a| ==> a[k] in a;
    }
  }

  method FilterInPlace(str: array<char>)
    requires NUL in str[..]
    modifies str
    ensures str[..] == Filter(old(CStr(str[..]))) + old(str[|CStr(str[..])|..])
    ensures CStr(str[..]) == Filter(old(CStr(str[..])))
  {
    ghost var s := CStr(str[..]);
    var len := |CStr(str[..])|;
    for i := 0 to len
      invariant forall k :: 0 <= k < str.Length ==> str[k] == if k < i then Filter(s)[k] else old(str[k])
    {
      if str[i] == '\r' || str[i] == '\n' { str[i] := ' '; }
    }
    assert str[..] == Filter(s) + old(str[len..]);
    CStrIs(str[..], Filter(s));
  }

  /** The text that irc_message formats. */
  function Format(chan: string, message: string): string {
    "PRIVMSG " + chan + " :" + message + "\r\n"
  }

  /** What reaches the server: the send buffer has room for 511 bytes (src/net.c:166). */
  function Sent(text: string): string {
    if |text| <= 511 then text else text[..511]
  }

  /** How the server passes it on. */
  function Relayed(sender: string, chan: string, message: string): string {
    ":" + sender + " " + Sent(Format(chan, message))
  }

  predicate Word(s: string) {
    ' ' !in s && '\r' !in s && '\n' !in s && NUL !in s
  }

  // ---- parsing back ------------------------------------------------------------------------

  lemma MarksUnique(line: string, m: Marks, m': Marks)
    requires AreMarks(line, m) && AreMarks(line, m')
    ensures m == m'
  {
    assert m.s1 == m'.s1;
    assert m.s2 == m'.s2;
    assert m.s3 == m'.s3;
  }

  function Line(sender: string, command: string, chan: string, message: string): (line: string)
    ensures line != "" && line[0] == ':'
  {
    ":" + (sender + " " + command + " " + chan + " :" + message)
  }

  function LineMarks(sender: string, command: string, chan: string): Marks {
    var s1 := |sender| + 1;
    var s2 := s1 + 1 + |command|;
    var s3 := s2 + 1 + |chan|;
    Marks(s1, s2, s3, s3 + 1)
  }

  lemma WordAt(line: string, a: nat, b: nat, word: string)
    requires a <= b <= |line| && line[a..b] == word && Word(word)
    ensures NoSpace(line, a, b)
  {
    forall k | a <= k < b ensures line[k] != ' ' {
      assert line[k] == word[k - a];
      assert word[k - a] in word;
    }
  }

  lemma LineHasMarks(sender: string, command: string, chan: string, message: string)
    requires Word(sender) && Word(command) && Word(chan)
    ensures AreMarks(Line(sender, command, chan, message), LineMarks(sender, command, chan))
  {
    var line, m := Line(sender, command, chan, message), LineMarks(sender, command, chan);
    LineSlices(sender, command, chan, message);
    WordAt(line, 1, m.s1, sender);
    WordAt(line, m.s1 + 1, m.s2, command);
    WordAt(line, m.s2 + 1, m.s3, chan);
  }

  lemma CStrWhole(s: string)
    requires NulFree(s)
    ensures CStr(s) == s
  {
    CStrIs(s, s);
  }

  lemma LineSlices(sender: string, command: string, chan: string, message: string)
    ensures var line, m := Line(sender, command, chan, message), LineMarks(sender, command, chan);
      && |line| == m.stop + 1 + |message|
      && line[1..m.s1] == sender && line[m.s1] == ' '
      && line[m.s1 + 1..m.s2] == command && line[m.s2] == ' '
      && line[m.s2 + 1..m.s3] == chan && line[m.s3] == ' '
      && line[m.stop + 1..] == message && line[m.stop] == ':'
  {
  }

  lemma LineFieldsAt(sender: string, command: string, chan: string, message: string)
    requires Word(sender) && Word(command) && Word(chan) && NulFree(message)
    requires AreMarks(Line(sender, command, chan, message), LineMarks(sender, command, chan))
    ensures FieldsAt(Line(sender, command, chan, message), LineMarks(sender, command, chan))
      == Fields(Some(sender), Some(command), Some(chan), Some(message))
  {
    LineSlices(sender, command, chan, message);
    CStrWhole(sender);
    CStrWhole(command);
    CStrWhole(chan);
    CStrWhole(message);
  }

  lemma LineFields(sender: string, command: string, chan: string, message: string)
    requires Word(sender) && Word(command) && Word(chan) && NulFree(message)
    ensures FieldsOf(Line(sender, command, chan, message))
      == Fields(Some(sender), Some(command), Some(chan), Some(message))
  {
    var line := Line(sender, command, chan, message);
    LineHasMarks(sender, command, chan, message);
    LineFieldsAt(sender, command, chan, message);
    MarksUnique(line, LineMarks(sender, command, chan), MarksOf(line));
  }

  lemma NoBreaksNoCrlf(s: string)
    requires '\n' !in s
    ensures NoCrlf(s)
  {
    forall j: nat ensures !CrlfAt(s, j) {
      if j + 1 < |s| { assert s[j + 1] in s; }
    }
  }

  lemma RelayedIsLine(sender: string, chan: string, message: string)
    requires |Format(chan, message)| <= 511
    ensures Relayed(sender, chan, message) == Line(sender, "PRIVMSG", chan, message) + "\r\n"
  {
  }

  /** Where the answer to a message goes. */
  function TargetOf(sender: string, chan: string): string {
    if IsChannel(chan) then chan else NickOf(sender)
  }

  lemma LineEventOf(sender: string, command: string, chan: string, message: string)
    requires Word(sender) && Word(command) && Word(chan) && NulFree(message)
    ensures LineEvent(Line(sender, command, chan, message)) ==
      if "PRIVMSG" <= command || "NOTICE" <= command then Some(Check(sender, TargetOf(sender, chan), message)) else None
  {
    var line := Line(sender, command, chan, message);
    LineFields(sender, command, chan, message);
    assert ":" <= line && !("PING" <= line);
  }

  /** A message to a channel, be it a PRIVMSG or a NOTICE, is checked for a command whose answer goes to
      that channel. */
  lemma ChannelMessage(sender: string, command: string, chan: string, message: string)
    requires Word(sender) && Word(command) && Word(chan) && NulFree(message)
    requires command == "PRIVMSG" || command == "NOTICE"
    requires chan != "" && chan[0] in {'#', '&', '+', '!'}
    ensures LineEvent(Line(sender, command, chan, message)) == Some(Check(sender, chan, message))
  {
    LineEventOf(sender, command, chan, message);
  }

  /** The answer to any other message goes to the nick of its sender, which is the whole sender if that
      has no exclamation mark. */
  lemma PrivateMessage(nick: string, rest: string, command: string, chan: string, message: string)
    requires Word(nick) && Word(rest) && Word(command) && Word(chan) && NulFree(message)
    requires command == "PRIVMSG" || command == "NOTICE"
    requires chan == "" || chan[0] !in {'#', '&', '+', '!'}
    requires '!' !in nick
    ensures LineEvent(Line(nick + "!" + rest, command, chan, message)) == Some(Check(nick + "!" + rest, nick, message))
    ensures LineEvent(Line(nick, command, chan, message)) == Some(Check(nick, nick, message))
  {
    LineEventOf(nick + "!" + rest, command, chan, message);
    LineEventOf(nick, command, chan, message);
    IndexOfIs(nick + "!" + rest, '!', |nick|);
    IndexOfIs(nick, '!', |nick|);
    assert (nick + "!" + rest)[..|nick|] == nick == nick[..|nick|];
  }

  /** No other command of a prefixed line is looked at. */
  lemma OtherCommand(sender: string, command: string, chan: string, message: string)
    requires Word(sender) && Word(command) && Word(chan) && NulFree(message)
    requires !("PRIVMSG" <= command) && !("NOTICE" <= command)
    ensures LineEvent(Line(sender, command, chan, message)) == None
  {
    LineEventOf(sender, command, chan, message);
  }

  /** A filtered message, relayed by the server and read in any pieces that split no CR LF, is framed by
      the receive loop as one line and parsed back to the same sender, place and text; a message to the
      bot itself is answered to the sender's nick. The loop stays inside its buffer exactly when the
      relayed line has at most 512 bytes. */
  lemma PrintParse(sender: string, chan: string, raw: string, chunks: seq<string>)
    requires Word(sender) && Word(chan) && NulFree(raw)
    requires |Format(chan, raw)| <= 511
    requires Concat(chunks) == Relayed(sender, chan, Filter(raw)) && NeverSplits(chunks)
    ensures var message := Filter(raw);
      && (Fits(chunks) <==> |Relayed(sender, chan, message)| <= MAX_LINE)
      && FeedAll(chunks) == Framer([Line(sender, "PRIVMSG", chan, message)], "")
      && Events(FeedAll(chunks).lines) == [Check(sender, TargetOf(sender, chan), message)]
  {
    var f, line := FeedAll(chunks), Line(sender, "PRIVMSG", chan, Filter(raw));
    assert f == Framer([line], "") && (Fits(chunks) <==> |Relayed(sender, chan, Filter(raw))| <= MAX_LINE) by {
      RelayedFits(sender, chan, raw, chunks);
    }
    MessageAnswered(sender, chan, Filter(raw));
  }

  lemma MessageAnswered(sender: string, chan: string, message: string)
    requires Word(sender) && Word(chan) && NulFree(message)
    ensures Events([Line(sender, "PRIVMSG", chan, message)]) == [Check(sender, TargetOf(sender, chan), message)]
  {
    LineEventOf(sender, "PRIVMSG", chan, message);
    EventOfOne(Line(sender, "PRIVMSG", chan, message));
  }

  lemma EventOfOne(line: string)
    ensures var e := LineEvent(line); Events([line]) == if e.Some? then [e.value] else []
  {
    assert [line][..0] == [];
    assert Events([]) == [];
  }

  lemma RelayedFits(sender: string, chan: string, raw: string, chunks: seq<string>)
    requires Word(sender) && Word(chan) && |Format(chan, raw)| <= 511
    requires Concat(chunks) == Relayed(sender, chan, Filter(raw)) && NeverSplits(chunks)
    ensures FeedAll(chunks) == Framer([Line(sender, "PRIVMSG", chan, Filter(raw))], "")
    ensures Fits(chunks) <==> |Relayed(sender, chan, Filter(raw))| <= MAX_LINE
  {
    LineIsFramed(sender, chan, raw);
    LinesIffNeverSplit(chunks);
    OneLineFits(chunks, Line(sender, "PRIVMSG", chan, Filter(raw)));
    RelayedIsLine(sender, chan, Filter(raw));
  }

  lemma OneLineFits(chunks: seq<string>, line: string)
    requires FeedAll(chunks) == Framer([line], "")
    ensures Fits(chunks) <==> |line| + 2 <= MAX_LINE
  {
    FitsExactly(chunks);
    assert FeedAll(chunks).lines[0] == line;
  }

  lemma LineIsFramed(sender: string, chan: string, raw: string)
    requires Word(sender) && Word(chan)
    requires |Format(chan, raw)| <= 511
    ensures Split(Relayed(sender, chan, Filter(raw))) == Framer([Line(sender, "PRIVMSG", chan, Filter(raw))], "")
  {
    var line := Line(sender, "PRIVMSG", chan, Filter(raw));
    RelayedIsLine(sender, chan, Filter(raw));
    LineBytes(sender, chan, Filter(raw));
    NoBreaksNoCrlf(line);
    OneLine(line);
  }

  lemma LineBytes(sender: string, chan: string, message: string)
    requires Word(sender) && Word(chan) && '\n' !in message
    ensures '\n' !in Line(sender, "PRIVMSG", chan, message)
  {
    var line := Line(sender, "PRIVMSG", chan, message);
    forall c | c in line ensures c != '\n' {
      assert c in ":" || c in sender || c in " " || c in "PRIVMSG" || c in chan || c in " :" || c in message;
    }
  }

  /** The reply to a private message goes to the nick of the sender's mask. */
  lemma PrivateReply(nick: string, ident: string, host: string)
    requires '!' !in nick
    ensures NickOf(Mask(nick, ident, host)) == nick == ParseSender(Mask(nick, ident, host)).nick
  {
    var str := Mask(nick, ident, host);
    IndexOfIs(str, '!', |nick|);
    assert str[..|nick|] == nick;
  }

  // ---- the sender, in place ------------------------------------------------------------------

  /** irc_parsesender: the separators are overwritten with NUL; -1 is a null pointer. */
  method ParseSenderInPlace(str: array<char>) returns (ident: int, host: int)
    requires NUL in str[..]
    modifies str
    ensures -1 <= ident <= str.Length && -1 <= host <= str.Length
    ensures Sender(CStr(str[..]), StringAt(str[..], ident), StringAt(str[..], host))
      == ParseSender(old(CStr(str[..])))
  {
    ghost var s := CStr(str[..]);
    Terminates(str[..]);
    ident, host := -1, -1;
    var i := IndexOf(CStr(str[..]), '!');
    if i == |CStr(str[..])| { return; }
    CutNick(str, i);
    ident := i + 1;
    host := CutHost(str, i + 1, |s|, s[i + 1..]);
    SegmentIs(str, 0, i, s[..i]);
    assert str[0..] == str[..];
  }

  /** The first half: the nick ends at the exclamation mark. */
  method CutNick(str: array<char>, i: nat)
    requires i < |CStr(str[..])| < str.Length
    modifies str
    ensures var s := old(CStr(str[..]));
      && str[..i] == s[..i] && str[i] == NUL && str[i + 1..|s|] == s[i + 1..] && str[|s|] == NUL
      && NulFree(s[..i]) && NulFree(s[i + 1..])
  {
    ghost var s := CStr(str[..]);
    assert str[..|s|] == s && str[|s|] == NUL;
    str[i] := NUL;
  }

  lemma Terminates(buf: string)
    requires NUL in buf
    ensures |CStr(buf)| < |buf|
  {
    var s := CStr(buf);
    assert forall k :: 0 <= k < |s| ==> s[k] in s && s[k] == buf[k];
  }

  /** The second half: the ident starts at a and ends with the string, or at an at sign. */
  method CutHost(str: array<char>, a: nat, ghost b: nat, ghost rest: string) returns (host: int)
    requires a <= b < str.Length && str[a..b] == rest && NulFree(rest) && str[b] == NUL
    modifies str
    ensures -1 <= host <= str.Length && str[..a] == old(str[..a])
    ensures StringAt(str[..], a) == Some(rest[..IndexOf(rest, '@')])
    ensures var j := IndexOf(rest, '@');
      StringAt(str[..], host) == if j < |rest| then Some(rest[j + 1..]) else None
  {
    SegmentIs(str, a, b, rest);
    var tail := CStr(str[a..]);
    var j := IndexOf(tail, '@');
    host := -1;
    assert rest[..|rest|] == rest;
    if j < |tail| {
      str[a + j] := NUL;
      host := a + j + 1;
      SegmentIs(str, a, a + j, rest[..j]);
      SegmentIs(str, host, b, rest[j + 1..]);
      assert str[..][host..] == str[host..];
    }
    assert str[..][a..] == str[a..];
  }

  lemma SegmentIs(str: array<char>, a: nat, b: nat, segment: string)
    requires a <= b < str.Length && str[a..b] == segment && NulFree(segment) && str[b] == NUL
    ensures CStr(str[a..]) == segment
  {
    CStrIs(str[a..], segment);
  }
}
