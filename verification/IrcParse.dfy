/** The meaning of one received line (src/irc.c:156-203), and of a sender (src/irc.c:58-72). */
module IrcParse {
  import opened CStrings
  import opened Options

  /** What the loop does with a line: answer a PING, or look for a command in a message. */
  datatype Event = Pong(text: string) | Check(user: string, target: string, message: string)

  /** Position of the first space or colon at i or later, or the length. */
  function StopFrom(s: string, i: nat): (r: nat)
    requires i <= |s|
    ensures i <= r <= |s| && (r < |s| ==> s[r] == ' ' || s[r] == ':')
    ensures forall k :: i <= k < r ==> s[k] != ' ' && s[k] != ':'
    decreases |s| - i
  {
    if i == |s| || s[i] == ' ' || s[i] == ':' then i else StopFrom(s, i + 1)
  }

  function SpaceAfter(s: string, i: nat): (r: nat)
    requires i <= |s|
    ensures r <= |s| && (r < |s| ==> i < r && s[r] == ' ')
    ensures i <= r && forall k :: i < k < r ==> s[k] != ' '
  {
    if i == |s| then i else IndexFrom(s, ' ', i + 1)
  }

  /** The first three spaces after the leading colon, and the space or colon after the third;
      the length of the line stands for a missing one. */
  datatype Marks = Marks(s1: nat, s2: nat, s3: nat, stop: nat)

  function MarksOf(line: string): (m: Marks)
    requires line != ""
    ensures AreMarks(line, m)
  {
    var s1 := SpaceAfter(line, 0);
    var s2 := SpaceAfter(line, s1);
    var s3 := SpaceAfter(line, s2);
    Marks(s1, s2, s3, if s3 == |line| then s3 else StopFrom(line, s3 + 1))
  }

  predicate NoSpace(line: string, a: nat, b: nat)
    requires b <= |line|
  {
    forall k :: a <= k < b ==> line[k] != ' '
  }

  predicate AreMarks(line: string, m: Marks) {
    var n := |line|;
    && 0 < n && m.s1 <= m.s2 <= m.s3 <= m.stop <= n
    && NoSpace(line, 1, m.s1) && (m.s1 < n ==> 0 < m.s1 < m.s2 && line[m.s1] == ' ')
    && NoSpace(line, m.s1 + 1, m.s2) && (m.s2 < n ==> m.s2 < m.s3 && line[m.s2] == ' ')
    && NoSpace(line, m.s2 + 1, m.s3) && (m.s3 < n ==> m.s3 < m.stop && line[m.s3] == ' ')
    && NoSpace(line, m.s3 + 1, m.stop) && (forall k :: m.s3 < k < m.stop ==> line[k] != ':')
    && (m.stop < n ==> line[m.stop] == ' ' || line[m.stop] == ':')
  }

  /** The four fields of a prefixed line, absent like the program's null pointers. */
  datatype Fields = Fields(user: Option<string>, command: Option<string>,
                           place: Option<string>, message: Option<string>)

  function FieldsOf(line: string): Fields
    requires line != ""
  {
    FieldsAt(line, MarksOf(line))
  }

  function FieldsAt(line: string, m: Marks): Fields
    requires AreMarks(line, m)
  {
    var n := |line|;
    Fields(
      if m.s1 < n then Some(CStr(line[1..m.s1])) else None,
      if m.s2 < n then Some(CStr(line[m.s1 + 1..m.s2])) else None,
      if m.s3 < n then Some(CStr(line[m.s2 + 1..m.s3])) else None,
      if m.stop < n && line[m.stop] == ':' then Some(CStr(line[m.stop + 1..])) else None)
  }

  predicate IsChannel(place: string) {
    place != "" && (place[0] == '#' || place[0] == '&' || place[0] == '+' || place[0] == '!')
  }

  function NickOf(user: string): string { user[..IndexOf(user, '!')] }

  function MessageEvent(f: Fields): Option<Event> {
    if f.user.None? || f.command.None? || f.place.None? || f.message.None? then None
    else if !("PRIVMSG" <= f.command.value || "NOTICE" <= f.command.value) then None
    else
      var target := if IsChannel(f.place.value) then f.place.value else NickOf(f.user.value);
      Some(Check(f.user.value, target, f.message.value))
  }

  /** The whole reaction to one line. */
  function LineEvent(line: string): Option<Event> {
    if "PING" <= line then Some(Pong(CStr(line[1 := 'O'])))
    else if ":" <= line then MessageEvent(FieldsOf(line))
    else None
  }

  /** The answer to a PING repeats what came with it. */
  lemma PingPong(rest: string)
    requires NulFree(rest)
    ensures LineEvent("PING" + rest) == Some(Pong("PONG" + rest))
  {
    var line := "PING" + rest;
    assert line[1 := 'O'] == "PONG" + rest;
    CStrIs("PONG" + rest, "PONG" + rest);
  }

  /** Without a text, that is when no colon follows the third space, or a fourth space comes before it,
      a prefixed line is ignored. */
  lemma NoTextNoEvent(line: string)
    requires ":" <= line
    requires var m := MarksOf(line); m.stop == |line| || line[m.stop] == ' '
    ensures LineEvent(line) == None
  {
    assert line[0] == ':';
  }

  function Events(lines: seq<string>): seq<Event> {
    if lines == [] then []
    else
      var e := LineEvent(lines[|lines| - 1]);
      Events(lines[..|lines| - 1]) + (if e.Some? then [e.value] else [])
  }

  lemma EventsSnoc(lines: seq<string>, line: string)
    ensures var e := LineEvent(line);
      Events(lines + [line]) == if e.Some? then Events(lines) + [e.value] else Events(lines)
  {
    assert (lines + [line])[..|lines|] == lines;
  }

  // ---- senders -----------------------------------------------------------------------------

  datatype Sender = Sender(nick: string, ident: Option<string>, host: Option<string>)

  /** irc_parsesender; without an exclamation mark there is no ident and no host. */
  function ParseSender(str: string): Sender {
    var i := IndexOf(str, '!');
    if i == |str| then Sender(str, None, None)
    else
      var rest := str[i + 1..];
      var j := IndexOf(rest, '@');
      Sender(str[..i], Some(rest[..j]), if j < |rest| then Some(rest[j + 1..]) else None)
  }

  lemma IndexOfIs(s: string, c: char, i: nat)
    requires i <= |s| && (forall k :: 0 <= k < i ==> s[k] != c) && (i < |s| ==> s[i] == c)
    ensures IndexOf(s, c) == i
  {
  }

  function Mask(nick: string, ident: string, host: string): string {
    nick + "!" + ident + "@" + host
  }

  /** The parser recovers nick, ident and host exactly when the mask is unambiguous, and every
      sender with a host is the mask of its parts. */
  lemma SenderRoundTrip(nick: string, ident: string, host: string)
    ensures ParseSender(Mask(nick, ident, host)) == Sender(nick, Some(ident), Some(host))
      <==> '!' !in nick && '@' !in ident
  {
    var str := Mask(nick, ident, host);
    if '!' !in nick && '@' !in ident {
      IndexOfIs(str, '!', |nick|);
      assert str[..|nick|] == nick;
      var rest := ident + "@" + host;
      assert str[|nick| + 1..] == rest;
      IndexOfIs(rest, '@', |ident|);
      assert rest[..|ident|] == ident && rest[|ident| + 1..] == host;
    } else {
      assert forall k :: 0 <= k < |ParseSender(str).nick| ==> ParseSender(str).nick[k] != '!';
    }
  }

  /** Without an exclamation mark the whole text is the nick; without an at sign after it, the rest is the
      ident. */
  lemma SenderWithoutHost(nick: string, ident: string)
    requires '!' !in nick && '@' !in ident
    ensures ParseSender(nick) == Sender(nick, None, None)
    ensures ParseSender(nick + "!" + ident) == Sender(nick, Some(ident), None)
  {
    IndexOfIs(nick, '!', |nick|);
    var str := nick + "!" + ident;
    IndexOfIs(str, '!', |nick|);
    assert str[..|nick|] == nick && str[|nick| + 1..] == ident;
    IndexOfIs(ident, '@', |ident|);
    assert ident[..|ident|] == ident;
  }

  /** A host is found exactly when an at sign follows an exclamation mark, and then the sender is the
      mask of its three parts. */
  lemma SenderComposes(str: string)
    ensures ParseSender(str).host.Some? <==> exists i, j :: 0 <= i < j < |str| && str[i] == '!' && str[j] == '@'
    ensures var s := ParseSender(str);
      s.host.Some? ==> str == Mask(s.nick, s.ident.value, s.host.value)
  {
    var i := IndexOf(str, '!');
    if i < |str| {
      var rest := str[i + 1..];
      var j := IndexOf(rest, '@');
      if j < |rest| {
        assert str[i + 1 + j] == '@';
      } else {
        forall a, b | 0 <= a < b < |str| && str[a] == '!' ensures str[b] != '@' {
          assert str[b] == rest[b - i - 1];
        }
      }
    }
  }
}
