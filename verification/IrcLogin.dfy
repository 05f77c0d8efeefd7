/** The login handshake (src/irc.c:74-137): a line buffer and a nick that grows on collisions. */
module IrcLogin {
  import opened CStrings
  import opened Options
  import opened IrcFraming

  const NICK_ROOM := 20

  /** What the handshake sends. Nick is the current nick, Fallback the fixed one. */
  datatype Sent =
    | Pass(password: string)
    | User(user: string, realname: string)
    | Nick(nick: string)
    | Fallback
    | Pong(text: string)

  function Underscores(n: nat): string { seq(n, _ => '_') }

  /** The nick and its first n retries. */
  function Tries(nick: string, n: nat): seq<string> {
    if n == 0 then [nick] else Tries(nick, n - 1) + [nick + Underscores(n)]
  }

  /** The nicks among the messages sent, the fallback left out. */
  function Nicks(sent: seq<Sent>): seq<string> {
    if sent == [] then []
    else
      var last := sent[|sent| - 1];
      Nicks(sent[..|sent| - 1]) + (if last.Nick? then [last.nick] else [])
  }

  lemma NicksSnoc(sent: seq<Sent>, s: Sent)
    ensures Nicks(sent + [s]) == Nicks(sent) + (if s.Nick? then [s.nick] else [])
  {
    assert (sent + [s])[..|sent|] == sent;
  }

  /** What is sent before the first reply. */
  function Opening(user: string, realname: string, nick: string, password: Option<string>): seq<Sent> {
    (if password.Some? then [Pass(password.value)] else []) + [User(user, realname)] + [Nick(nick)]
  }

  lemma OpeningNicks(user: string, realname: string, nick: string, password: Option<string>)
    ensures Nicks(Opening(user, realname, nick, password)) == [nick]
  {
    var pass := if password.Some? then [Pass(password.value)] else [];
    NicksSnoc(pass + [User(user, realname)], Nick(nick));
    NicksSnoc(pass, User(user, realname));
    if password.Some? {
      NicksSnoc([], pass[0]);
      assert [] + pass == pass;
    }
  }

  lemma GrownText(nick: string, n: nat)
    requires NulFree(nick)
    ensures NulFree(nick + Underscores(n))
    ensures nick + Underscores(n + 1) == nick + Underscores(n) + "_"
  {
    assert Underscores(n + 1) == Underscores(n) + "_";
    forall c | c in nick + Underscores(n) ensures c != NUL {
      assert c in nick || c in Underscores(n);
    }
  }

  /** The scan looks at byte i of a line: it follows a space, or it is the first that does not and
      the line looks like a PING. */
  predicate Examined(line: string, i: nat)
    requires 1 < |line| && 1 <= i < |line|
  {
    line[i - 1] == ' ' || (line[1] == 'I' && Spaces(line, i - 1))
  }

  predicate Spaces(line: string, n: nat)
    requires n <= |line|
  {
    forall k :: 0 <= k < n ==> line[k] == ' '
  }

  /** Some examined byte before n starts a numeric reply below 100: the server accepted the login. */
  predicate Accepted(line: string, n: nat)
    requires 1 < |line| && 1 <= n <= |line|
  {
    n > 1 && (Accepted(line, n - 1) || (Examined(line, n - 1) && line[n - 1] == '0'))
  }

  lemma {:induction false} NickSentIsTry(sent: seq<Sent>, k: nat)
    requires k < |sent| && sent[k].Nick?
    ensures sent[k].nick in Nicks(sent)
  {
    if k < |sent| - 1 {
      NickSentIsTry(sent[..|sent| - 1], k);
    }
  }

  lemma {:induction false} TryIsExtended(nick: string, n: nat, s: string)
    requires s in Tries(nick, n)
    ensures exists k :: 0 <= k <= n && s == nick + Underscores(k)
  {
    if n == 0 {
      assert s == nick + Underscores(0);
    } else if s != nick + Underscores(n) {
      TryIsExtended(nick, n - 1, s);
    }
  }

  /** Every nick of a handshake is the configured one with at most 20 - |nick| underscores. */
  lemma NicksAreExtensions(sent: seq<Sent>, nick: string, n: nat, k: nat)
    requires Nicks(sent) == Tries(nick, n) && n <= Retries(nick)
    requires k < |sent| && sent[k].Nick?
    ensures exists u :: 0 <= u <= Retries(nick) && sent[k].nick == nick + Underscores(u)
    ensures |sent[k].nick| <= NICK_ROOM || sent[k].nick == nick
  {
    NickSentIsTry(sent, k);
    TryIsExtended(nick, n, sent[k].nick);
  }

  /** How often the nick may still grow. */
  function Retries(nick: string): nat {
    if |nick| < NICK_ROOM then NICK_ROOM - |nick| else 0
  }

  // ---- the handshake as a function -----------------------------------------------------------------

  /** The line buffer and its index, the number of underscores, the outcome and what was sent. */
  datatype Hand = Hand(buf: string, o: nat, grown: nat, success: bool, sent: seq<Sent>)

  /** The handshake when the opening messages have been sent. */
  function Begun(user: string, realname: string, nick: string, password: Option<string>, buf: string): Hand {
    Hand(buf, 0, 0, false, Opening(user, realname, nick, password))
  }

  function Sending(h: Hand, s: Sent): Hand { h.(sent := h.sent + [s]) }

  /** The reaction to the examined byte at i, within a read of rl bytes (src/irc.c:110-124). */
  function Reacted(nick: string, h: Hand, i: nat, rl: nat): (r: Hand)
    requires |h.buf| == 513 && i < 513 && rl <= 512
    ensures r.buf == h.buf && r.o == h.o
  {
    if h.buf[i] == '0' then h.(success := true)
    else if h.buf[i] != '4' then h
    else if i + 2 < rl && h.buf[i + 2] == '3' && |nick| + h.grown < NICK_ROOM then
      Sending(h.(grown := h.grown + 1), Nick(nick + Underscores(h.grown + 1)))
    else Sending(h, Fallback)
  }

  /** One round of the scan (src/irc.c:101-124). */
  function Looked(nick: string, h: Hand, i: nat, rl: nat): (r: Hand)
    requires |h.buf| == 513 && 1 <= i < 513 && rl <= 512
    ensures |r.buf| == 513 && r.o == h.o
  {
    if h.buf[i - 1] == ' ' then Reacted(nick, h, i, rl)
    else if h.buf[1] != 'I' then h
    else
      var pong := h.buf[1 := 'O'];
      Reacted(nick, Sending(h.(buf := pong), Pong(CStr(pong))), i, rl)
  }

  /** The scan of a line up to byte n. */
  function Scanned(nick: string, h: Hand, n: nat, rl: nat): (r: Hand)
    requires |h.buf| == 513 && n <= 513 && rl <= 512
    ensures |r.buf| == 513 && r.o == h.o
  {
    if n <= 1 then h else Looked(nick, Scanned(nick, h, n - 1, rl), n - 1, rl)
  }

  /** One received byte (src/irc.c:95-129). */
  function Taken(nick: string, h: Hand, chunk: string, j: nat): (r: Hand)
    requires |h.buf| == 513 && h.o <= 512 && j < |chunk| <= 512
    ensures |r.buf| == 513 && r.o <= 512
  {
    var g := h.(buf := h.buf[h.o := chunk[j]]);
    if (j > 0 && chunk[j] == '\n' && chunk[j - 1] == '\r') || h.o == 512 then
      Scanned(nick, g.(buf := g.buf[h.o := NUL]), h.o, |chunk|).(o := 0)
    else g.(o := h.o + 1)
  }

  function Received(nick: string, h: Hand, chunk: string, n: nat): (r: Hand)
    requires |h.buf| == 513 && h.o <= 512 && n <= |chunk| <= 512
    ensures |r.buf| == 513 && r.o <= 512
  {
    if n == 0 then h else Taken(nick, Received(nick, h, chunk, n - 1), chunk, n - 1)
  }

  ghost predicate Reads(chunks: seq<string>) {
    forall k :: 0 <= k < |chunks| ==> |chunks[k]| <= 512
  }

  /** The receive loop: it ends on success or on a read of at most two bytes. */
  ghost function LoggedIn(nick: string, h: Hand, chunks: seq<string>): (r: Hand)
    requires |h.buf| == 513 && h.o <= 512 && Reads(chunks)
    ensures |r.buf| == 513 && r.o <= 512
    decreases |chunks|
  {
    if chunks == [] || |chunks[0]| <= 2 || h.success then h
    else LoggedIn(nick, Received(nick, h, chunks[0], |chunks[0]|), chunks[1..])
  }

  // ---- what the handshake keeps --------------------------------------------------------------------

  /** The nicks sent are the configured one and its retries, in order, and they stay in their buffer. */
  ghost predicate InOrder(nick: string, h: Hand) {
    h.grown <= Retries(nick) && Nicks(h.sent) == Tries(nick, h.grown)
  }

  lemma ReactedInOrder(nick: string, h: Hand, i: nat, rl: nat)
    requires |h.buf| == 513 && i < 513 && rl <= 512 && InOrder(nick, h)
    ensures InOrder(nick, Reacted(nick, h, i, rl))
  {
    NicksSnoc(h.sent, Nick(nick + Underscores(h.grown + 1)));
    NicksSnoc(h.sent, Fallback);
  }

  lemma LookedInOrder(nick: string, h: Hand, i: nat, rl: nat)
    requires |h.buf| == 513 && 1 <= i < 513 && rl <= 512 && InOrder(nick, h)
    ensures InOrder(nick, Looked(nick, h, i, rl))
  {
    var pong := h.buf[1 := 'O'];
    var g := Sending(h.(buf := pong), Pong(CStr(pong)));
    NicksSnoc(h.sent, Pong(CStr(pong)));
    ReactedInOrder(nick, h, i, rl);
    ReactedInOrder(nick, g, i, rl);
  }

  lemma {:induction false} ScannedInOrder(nick: string, h: Hand, n: nat, rl: nat)
    requires |h.buf| == 513 && n <= 513 && rl <= 512 && InOrder(nick, h)
    ensures InOrder(nick, Scanned(nick, h, n, rl))
  {
    if n > 1 {
      ScannedInOrder(nick, h, n - 1, rl);
      LookedInOrder(nick, Scanned(nick, h, n - 1, rl), n - 1, rl);
    }
  }

  lemma {:induction false} ReceivedInOrder(nick: string, h: Hand, chunk: string, n: nat)
    requires |h.buf| == 513 && h.o <= 512 && n <= |chunk| <= 512 && InOrder(nick, h)
    ensures InOrder(nick, Received(nick, h, chunk, n))
  {
    if n > 0 {
      ReceivedInOrder(nick, h, chunk, n - 1);
      var g := Received(nick, h, chunk, n - 1);
      ScannedInOrder(nick, g.(buf := g.buf[g.o := chunk[n - 1]][g.o := NUL]), g.o, |chunk|);
    }
  }

  /** Whatever the server replies, the nicks sent are the configured one followed by its retries, one
      underscore at a time and at most 20 - |nick| of them. */
  lemma {:induction false} LoggedInInOrder(nick: string, h: Hand, chunks: seq<string>)
    requires |h.buf| == 513 && h.o <= 512 && Reads(chunks) && InOrder(nick, h)
    ensures InOrder(nick, LoggedIn(nick, h, chunks))
    decreases |chunks|
  {
    if chunks != [] && |chunks[0]| > 2 && !h.success {
      ReceivedInOrder(nick, h, chunks[0], |chunks[0]|);
      LoggedInInOrder(nick, Received(nick, h, chunks[0], |chunks[0]|), chunks[1..]);
    }
  }

  /** For every configured nick and all replies: each nick sent over the whole login is the configured one
      with at most 20 - |nick| underscores behind it. */
  lemma EveryNickSent(user: string, realname: string, nick: string, password: Option<string>,
                      buf: string, chunks: seq<string>, k: nat)
    requires |buf| == 513 && Reads(chunks)
    requires k < |LoggedIn(nick, Begun(user, realname, nick, password, buf), chunks).sent|
    ensures var s := LoggedIn(nick, Begun(user, realname, nick, password, buf), chunks).sent[k];
      s.Nick? ==>
        && nick <= s.nick && (forall i :: |nick| <= i < |s.nick| ==> s.nick[i] == '_')
        && (|s.nick| <= 20 || s.nick == nick)
  {
    var h := Begun(user, realname, nick, password, buf);
    OpeningNicks(user, realname, nick, password);
    LoggedInInOrder(nick, h, chunks);
    var last := LoggedIn(nick, h, chunks);
    if last.sent[k].Nick? { NicksAreExtensions(last.sent, nick, last.grown, k); }
  }

  /** The scan changes nothing but the I of a PING, and that once it has answered it. */
  lemma {:induction false} ScanKeepsLine(nick: string, h: Hand, n: nat, rl: nat)
    requires |h.buf| == 513 && n <= 513 && rl <= 512
    ensures var r := Scanned(nick, h, n, rl);
      && (forall k :: 0 <= k < 513 && k != 1 ==> r.buf[k] == h.buf[k])
      && r.buf[1] == if h.buf[1] == 'I' && n > 1 && !Spaces(h.buf, n - 1) then 'O' else h.buf[1]
  {
    if n > 1 { ScanKeepsLine(nick, h, n - 1, rl); }
  }

  /** A line makes the login succeed exactly when an examined byte of it is 0. */
  lemma {:induction false} ScanAccepts(nick: string, h: Hand, n: nat, rl: nat)
    requires |h.buf| == 513 && 1 <= n <= 513 && rl <= 512
    ensures Scanned(nick, h, n, rl).success == (h.success || Accepted(h.buf, n))
  {
    if n > 1 {
      ScanAccepts(nick, h, n - 1, rl);
      ScanKeepsLine(nick, h, n - 1, rl);
    }
  }

  // ---- what a line makes the bot send ----------------------------------------------------------------

  /** How many examined bytes before n are a 4: replies that refuse the nick, as the program takes them. */
  function Refusals(line: string, n: nat): nat
    requires 1 < |line| && 1 <= n <= |line|
  {
    if n == 1 then 0
    else Refusals(line, n - 1) + (if Examined(line, n - 1) && line[n - 1] == '4' then 1 else 0)
  }

  /** How many of them have a 3 two bytes later, within the size of the read: 433 and its kin. */
  function Collisions(line: string, n: nat, rl: nat): nat
    requires 1 < |line| && 1 <= n <= |line| && rl < |line|
  {
    if n == 1 then 0
    else
      var i := n - 1;
      Collisions(line, i, rl)
        + (if Examined(line, i) && line[i] == '4' && i + 2 < rl && line[i + 2] == '3' then 1 else 0)
  }

  function Fallbacks(sent: seq<Sent>): nat {
    if sent == [] then 0
    else Fallbacks(sent[..|sent| - 1]) + (if sent[|sent| - 1] == Fallback then 1 else 0)
  }

  function Pongs(sent: seq<Sent>): seq<string> {
    if sent == [] then []
    else
      var last := sent[|sent| - 1];
      Pongs(sent[..|sent| - 1]) + (if last.Pong? then [last.text] else [])
  }

  lemma SentSnoc(sent: seq<Sent>, s: Sent)
    ensures Fallbacks(sent + [s]) == Fallbacks(sent) + (if s == Fallback then 1 else 0)
    ensures Pongs(sent + [s]) == Pongs(sent) + (if s.Pong? then [s.text] else [])
  {
    assert (sent + [s])[..|sent|] == sent;
  }

  function Min(a: nat, b: nat): nat { if a < b then a else b }

  /** The reaction to an examined byte at i: what grows, and what is sent besides nicks. */
  lemma ReactedSends(nick: string, h: Hand, i: nat, rl: nat)
    requires |h.buf| == 513 && i < 513 && rl <= 512
    ensures var r := Reacted(nick, h, i, rl);
      var grows := h.buf[i] == '4' && i + 2 < rl && h.buf[i + 2] == '3' && |nick| + h.grown < 20;
      && r.grown == h.grown + (if grows then 1 else 0)
      && Fallbacks(r.sent) == Fallbacks(h.sent) + (if h.buf[i] == '4' && !grows then 1 else 0)
      && Pongs(r.sent) == Pongs(h.sent)
  {
    SentSnoc(h.sent, Nick(nick + Underscores(h.grown + 1)));
    SentSnoc(h.sent, Fallback);
  }

  /** Before byte i is looked at, the buffer holds the line as it was received, but for an answered PING. */
  predicate AsReceived(buf: string, line: string, i: nat)
    requires 1 <= i <= 513
  {
    && |buf| == |line| == 513
    && (forall k :: 0 <= k < 513 && k != 1 ==> buf[k] == line[k])
    && buf[1] == if line[1] == 'I' && i > 1 && !Spaces(line, i - 1) then 'O' else line[1]
  }

  /** Byte i is the first not to follow a space, in a line with a PING. */
  predicate Pings(line: string, i: nat)
    requires 1 < |line| && 1 <= i < |line|
  {
    line[1] == 'I' && line[i - 1] != ' ' && Spaces(line, i - 1)
  }

  predicate Grows(line: string, i: nat, rl: nat, room: bool)
    requires 1 < |line| && 1 <= i < |line| && rl < |line|
  {
    Examined(line, i) && line[i] == '4' && i + 2 < rl && line[i + 2] == '3' && room
  }

  /** One round of the scan in terms of the line as it was received. */
  lemma LookedSends(nick: string, h: Hand, line: string, i: nat, rl: nat)
    requires 1 <= i < 513 && rl <= 512 && AsReceived(h.buf, line, i) && h.grown <= Retries(nick)
    ensures var r, grows := Looked(nick, h, i, rl), Grows(line, i, rl, h.grown < Retries(nick));
      && r.grown == h.grown + (if grows then 1 else 0)
      && Fallbacks(r.sent) == Fallbacks(h.sent) + (if Examined(line, i) && line[i] == '4' && !grows then 1 else 0)
      && Pongs(r.sent) == Pongs(h.sent) + (if Pings(line, i) then [CStr(h.buf[1 := 'O'])] else [])
  {
    if h.buf[i - 1] == ' ' {
      ReactedSends(nick, h, i, rl);
    } else if h.buf[1] == 'I' {
      var pong := h.buf[1 := 'O'];
      var g := Sending(h.(buf := pong), Pong(CStr(pong)));
      SentSnoc(h.sent, Pong(CStr(pong)));
      ReactedSends(nick, g, i, rl);
    }
  }

  lemma ScannedAsReceived(nick: string, h: Hand, n: nat, rl: nat)
    requires |h.buf| == 513 && 1 <= n <= 513 && rl <= 512
    ensures AsReceived(Scanned(nick, h, n, rl).buf, h.buf, n)
    ensures Scanned(nick, h, n, rl).buf[1 := 'O'] == h.buf[1 := 'O']
  {
    ScanKeepsLine(nick, h, n, rl);
  }

  /** The nick grows once for each 43x, as long as it has room. */
  lemma {:induction false} ScanGrows(nick: string, h: Hand, n: nat, rl: nat)
    requires |h.buf| == 513 && 1 <= n <= 513 && rl <= 512 && h.grown <= Retries(nick)
    ensures Scanned(nick, h, n, rl).grown == Min(Retries(nick), h.grown + Collisions(h.buf, n, rl))
  {
    if n > 1 {
      ScanGrows(nick, h, n - 1, rl);
      ScannedAsReceived(nick, h, n - 1, rl);
      LookedSends(nick, Scanned(nick, h, n - 1, rl), h.buf, n - 1, rl);
    }
  }

  /** Every other examined 4 sends the fallback nick once. */
  lemma {:induction false} ScanFallsBack(nick: string, h: Hand, n: nat, rl: nat)
    requires |h.buf| == 513 && 1 <= n <= 513 && rl <= 512 && h.grown <= Retries(nick)
    ensures var r := Scanned(nick, h, n, rl);
      Fallbacks(r.sent) + r.grown == Fallbacks(h.sent) + h.grown + Refusals(h.buf, n)
  {
    if n > 1 {
      ScanFallsBack(nick, h, n - 1, rl);
      ScanGrows(nick, h, n - 1, rl);
      ScannedAsReceived(nick, h, n - 1, rl);
      LookedSends(nick, Scanned(nick, h, n - 1, rl), h.buf, n - 1, rl);
    }
  }

  /** The answers to a line of which n bytes were scanned. */
  function Answers(line: string, n: nat): seq<string>
    requires |line| == 513 && 1 <= n <= 513
  {
    if line[1] == 'I' && !Spaces(line, n - 1) then [CStr(line[1 := 'O'])] else []
  }

  function AnswerAt(line: string, i: nat): seq<string>
    requires |line| == 513 && 1 <= i < 513
  {
    if Pings(line, i) then [CStr(line[1 := 'O'])] else []
  }

  lemma MoreAnswers(line: string, n: nat)
    requires |line| == 513 && 1 < n <= 513
    ensures Answers(line, n) == Answers(line, n - 1) + AnswerAt(line, n - 1)
  {
  }

  /** A line with a PING is answered once, with its O. */
  lemma {:induction false} ScanAnswers(nick: string, h: Hand, n: nat, rl: nat)
    requires |h.buf| == 513 && 1 <= n <= 513 && rl <= 512 && h.grown <= Retries(nick)
    ensures Pongs(Scanned(nick, h, n, rl).sent) == Pongs(h.sent) + Answers(h.buf, n)
  {
    if n > 1 {
      ScanAnswers(nick, h, n - 1, rl);
      OneMoreAnswer(nick, h, n, rl);
      MoreAnswers(h.buf, n);
      JoinAnswers(Pongs(h.sent), Answers(h.buf, n - 1), AnswerAt(h.buf, n - 1));
    }
  }

  lemma OneMoreAnswer(nick: string, h: Hand, n: nat, rl: nat)
    requires |h.buf| == 513 && 1 < n <= 513 && rl <= 512 && h.grown <= Retries(nick)
    ensures Pongs(Scanned(nick, h, n, rl).sent) == Pongs(Scanned(nick, h, n - 1, rl).sent) + AnswerAt(h.buf, n - 1)
  {
    ScanGrows(nick, h, n - 1, rl);
    ScannedAsReceived(nick, h, n - 1, rl);
    LookedSends(nick, Scanned(nick, h, n - 1, rl), h.buf, n - 1, rl);
  }

  lemma JoinAnswers(a: seq<string>, b: seq<string>, c: seq<string>)
    ensures (a + b) + c == a + (b + c)
  {
  }

  /** The opening: the password if there is one, the user, the nick. */
  lemma OpeningIs(user: string, realname: string, nick: string, password: string)
    ensures Opening(user, realname, nick, None) == [User(user, realname), Nick(nick)]
    ensures Opening(user, realname, nick, Some(password)) == [Pass(password), User(user, realname), Nick(nick)]
  {
  }

  // ---- which lines there are -------------------------------------------------------------------------

  /** The login's own framing: a line ends at an LF after a CR of the same read, of which the CR is kept,
      or when 512 bytes have come in; the byte that ends it is dropped. */
  function PushLine(f: Framer, afterCr: bool, c: char): Framer {
    if (afterCr && c == '\n') || |f.rest| == 512 then Framer(f.lines + [f.rest], "")
    else f.(rest := f.rest + [c])
  }

  function Chop(f: Framer, chunk: string, n: nat): Framer
    requires n <= |chunk|
  {
    if n == 0 then f
    else PushLine(Chop(f, chunk, n - 1), n >= 2 && chunk[n - 2] == '\r', chunk[n - 1])
  }

  function ChopAll(f: Framer, chunks: seq<string>): Framer
    decreases |chunks|
  {
    if chunks == [] then f else ChopAll(Chop(f, chunks[0], |chunks[0]|), chunks[1..])
  }

  /** The reads that the login looks at: those before the first of at most two bytes. */
  function UntilShort(chunks: seq<string>): seq<string> {
    if chunks == [] || |chunks[0]| <= 2 then [] else [chunks[0]] + UntilShort(chunks[1..])
  }

  predicate Accepts(line: string) { |line| > 1 && Accepted(line, |line|) }

  predicate AnyAccepts(lines: seq<string>) { exists k :: 0 <= k < |lines| && Accepts(lines[k]) }

  /** The buffer holds the unfinished line, and success says whether a finished one was accepted. */
  predicate Tracks(h: Hand, f: Framer) {
    && |h.buf| == 513 && h.o <= 512 && h.o == |f.rest| && h.buf[..h.o] == f.rest
    && (h.success <==> AnyAccepts(f.lines))
  }

  lemma {:induction false} AcceptedInBuffer(buf: string, line: string, n: nat)
    requires 1 < |line| <= |buf| && buf[..|line|] == line && 1 <= n <= |line|
    ensures Accepted(buf, n) <==> Accepted(line, n)
  {
    assert forall k :: 0 <= k < |line| ==> buf[k] == line[k];
    if n > 1 { AcceptedInBuffer(buf, line, n - 1); }
  }

  lemma OneMoreLine(lines: seq<string>, line: string)
    ensures AnyAccepts(lines + [line]) <==> AnyAccepts(lines) || Accepts(line)
  {
    if AnyAccepts(lines) {
      var k :| 0 <= k < |lines| && Accepts(lines[k]);
      assert (lines + [line])[k] == lines[k];
    }
    if Accepts(line) { assert (lines + [line])[|lines|] == line; }
    assert forall k :: 0 <= k < |lines| ==> (lines + [line])[k] == lines[k];
  }

  lemma TakenTracks(nick: string, h: Hand, f: Framer, chunk: string, j: nat)
    requires Tracks(h, f) && j < |chunk| <= 512
    ensures Tracks(Taken(nick, h, chunk, j), PushLine(f, j > 0 && chunk[j - 1] == '\r', chunk[j]))
  {
    var g := h.(buf := h.buf[h.o := chunk[j]]);
    if (j > 0 && chunk[j] == '\n' && chunk[j - 1] == '\r') || h.o == 512 {
      LineTracks(nick, g.(buf := g.buf[h.o := NUL]), f, |chunk|);
    } else {
      assert g.buf[..h.o + 1] == f.rest + [chunk[j]];
    }
  }

  lemma LineTracks(nick: string, h: Hand, f: Framer, rl: nat)
    requires |h.buf| == 513 && h.o <= 512 && h.o == |f.rest| && h.buf[..h.o] == f.rest && rl <= 512
    requires h.success <==> AnyAccepts(f.lines)
    ensures Scanned(nick, h, h.o, rl).success <==> AnyAccepts(f.lines + [f.rest])
  {
    OneMoreLine(f.lines, f.rest);
    if h.o > 1 {
      ScanAccepts(nick, h, h.o, rl);
      AcceptedInBuffer(h.buf, f.rest, h.o);
    }
  }

  lemma {:induction false} ReceivedTracks(nick: string, h: Hand, f: Framer, chunk: string, n: nat)
    requires Tracks(h, f) && n <= |chunk| <= 512
    ensures Tracks(Received(nick, h, chunk, n), Chop(f, chunk, n))
  {
    if n > 0 {
      ReceivedTracks(nick, h, f, chunk, n - 1);
      TakenTracks(nick, Received(nick, h, chunk, n - 1), Chop(f, chunk, n - 1), chunk, n - 1);
    }
  }

  lemma {:induction false} ChopKeeps(f: Framer, chunk: string, n: nat)
    requires n <= |chunk|
    ensures f.lines <= Chop(f, chunk, n).lines
  {
    if n > 0 { ChopKeeps(f, chunk, n - 1); }
  }

  lemma {:induction false} ChopAllKeeps(f: Framer, chunks: seq<string>)
    ensures f.lines <= ChopAll(f, chunks).lines
    decreases |chunks|
  {
    if chunks != [] {
      ChopKeeps(f, chunks[0], |chunks[0]|);
      ChopAllKeeps(Chop(f, chunks[0], |chunks[0]|), chunks[1..]);
    }
  }

  lemma {:induction false} LoggedInTracks(nick: string, h: Hand, f: Framer, chunks: seq<string>)
    requires Tracks(h, f) && Reads(chunks)
    ensures LoggedIn(nick, h, chunks).success <==> AnyAccepts(ChopAll(f, UntilShort(chunks)).lines)
    decreases |chunks|
  {
    if chunks != [] && |chunks[0]| > 2 {
      var c, used := chunks[0], UntilShort(chunks);
      assert used[0] == c && used[1..] == UntilShort(chunks[1..]);
      if h.success {
        ChopAllKeeps(f, used);
        MoreLines(f.lines, ChopAll(f, used).lines);
      } else {
        ReceivedTracks(nick, h, f, c, |c|);
        LoggedInTracks(nick, Received(nick, h, c, |c|), Chop(f, c, |c|), chunks[1..]);
      }
    }
  }

  lemma MoreLines(some: seq<string>, all: seq<string>)
    requires some <= all && AnyAccepts(some)
    ensures AnyAccepts(all)
  {
    var k :| 0 <= k < |some| && Accepts(some[k]);
    assert all[k] == some[k];
  }

  /** For every server: the login succeeds exactly when a line of what is read before the first short read
      has an examined byte 0. */
  lemma LoginSucceedsExactly(user: string, realname: string, nick: string, password: Option<string>,
                             buf: string, chunks: seq<string>)
    requires |buf| == 513 && Reads(chunks)
    ensures LoggedIn(nick, Begun(user, realname, nick, password, buf), chunks).success
      <==> AnyAccepts(ChopAll(Framer([], ""), UntilShort(chunks)).lines)
  {
    LoggedInTracks(nick, Begun(user, realname, nick, password, buf), Framer([], ""), chunks);
  }

  /** The lines are those of the receive loop, with the CR kept, as far as they stay in its buffer. */
  ghost predicate SameLines(f: Framer, g: Framer) {
    && f.rest == g.rest && |f.lines| == |g.lines|
    && forall k :: 0 <= k < |f.lines| ==> f.lines[k] == g.lines[k] + "\r"
  }

  lemma {:induction false} ChopIsFeed(f: Framer, g: Framer, chunk: string, n: nat)
    requires n <= |chunk| && SameLines(f, g) && FitsUpTo(g, chunk, n)
    ensures SameLines(Chop(f, chunk, n), Feed(g, chunk, n))
    ensures n > 0 && chunk[n - 1] == '\r' ==> EndsCr(Feed(g, chunk, n).rest)
  {
    if n > 0 {
      assert FitsUpTo(g, chunk, n - 1);
      ChopIsFeed(f, g, chunk, n - 1);
      assert |Feed(g, chunk, n - 1).rest| < MAX_LINE;
      PushSame(Chop(f, chunk, n - 1), Feed(g, chunk, n - 1), n >= 2 && chunk[n - 2] == '\r', chunk[n - 1]);
    }
  }

  lemma PushSame(f: Framer, g: Framer, afterCr: bool, c: char)
    requires SameLines(f, g) && |g.rest| < MAX_LINE && (afterCr ==> EndsCr(g.rest))
    ensures SameLines(PushLine(f, afterCr, c), Push(g, afterCr, c))
    ensures c == '\r' ==> EndsCr(Push(g, afterCr, c).rest)
  {
    if afterCr && c == '\n' {
      assert g.rest == g.rest[..|g.rest| - 1] + "\r";
    }
  }

  lemma {:induction false} ChopAllSnoc(f: Framer, chunks: seq<string>, chunk: string)
    ensures ChopAll(f, chunks + [chunk]) == Chop(ChopAll(f, chunks), chunk, |chunk|)
    decreases |chunks|
  {
    if chunks == [] {
      assert [] + [chunk] == [chunk] && [chunk][1..] == [];
    } else {
      ChopAllSnoc(Chop(f, chunks[0], |chunks[0]|), chunks[1..], chunk);
      assert (chunks + [chunk])[1..] == chunks[1..] + [chunk];
    }
  }

  lemma {:induction false} LoginLines(chunks: seq<string>)
    requires Fits(chunks)
    ensures SameLines(ChopAll(Framer([], ""), chunks), FeedAll(chunks))
  {
    if chunks != [] {
      var k := |chunks| - 1;
      FitsInit(chunks);
      LoginLines(chunks[..k]);
      ChopAllSnoc(Framer([], ""), chunks[..k], chunks[k]);
      assert chunks == chunks[..k] + [chunks[k]];
      ChopIsFeed(ChopAll(Framer([], ""), chunks[..k]), FeedAll(chunks[..k]), chunks[k], |chunks[k]|);
    }
  }

  /** One line in one read: it is scanned with the size of that read. */
  lemma OneLineRead(nick: string, h: Hand, line: string)
    requires |h.buf| == 513 && h.o == 0 && |line| <= 510 && NoCrlf(line)
    ensures var chunk, buf := line + "\r\n", line + "\r" + [NUL] + h.buf[|line| + 2..];
      Received(nick, h, chunk, |chunk|)
        == Scanned(nick, h.(buf := buf, o := |line| + 1), |line| + 1, |line| + 2).(o := 0)
  {
    var chunk, n := line + "\r\n", |line| + 1;
    var plain := line + "\r";
    assert chunk[..n] == plain;
    forall j: nat ensures !CrlfAt(plain, j) {
      assert !CrlfAt(line, j);
    }
    PlainRead(nick, h, chunk, n);
    var g := Received(nick, h, chunk, n);
    assert g.buf[n := chunk[n]][n := NUL] == plain + [NUL] + h.buf[n + 1..];
  }

  lemma {:induction false} PlainRead(nick: string, h: Hand, chunk: string, n: nat)
    requires |h.buf| == 513 && h.o == 0 && n <= |chunk| <= 512 && NoCrlf(chunk[..n])
    ensures Received(nick, h, chunk, n) == h.(buf := chunk[..n] + h.buf[n..], o := n)
  {
    if n == 0 {
      assert chunk[..0] + h.buf[0..] == h.buf;
    } else {
      var p, s := chunk[..n - 1], chunk[..n];
      forall j: nat ensures !CrlfAt(p, j) {
        assert !CrlfAt(s, j);
      }
      PlainRead(nick, h, chunk, n - 1);
      if n >= 2 { assert !CrlfAt(s, n - 2); }
      StoreByte(h.buf, p, chunk[n - 1]);
      assert s == p + [chunk[n - 1]];
    }
  }

  lemma StoreByte(buf: string, p: string, c: char)
    requires |p| < |buf|
    ensures (p + buf[|p|..])[|p| := c] == p + [c] + buf[|p| + 1..]
  {
  }

  /** The login ends after the read that makes it succeed, and at a read of at most two bytes. */
  lemma LoginStops(nick: string, h: Hand, chunks: seq<string>)
    requires |h.buf| == 513 && h.o <= 512 && chunks != [] && Reads(chunks)
    ensures |chunks[0]| <= 2 ==> LoggedIn(nick, h, chunks) == h
    ensures var r := Received(nick, h, chunks[0], |chunks[0]|);
      |chunks[0]| > 2 && !h.success && r.success ==> LoggedIn(nick, h, chunks) == r
  {
  }

  // ---- the program -----------------------------------------------------------------------------------

  class Login {
    const buf: array<char>
    const nick: array<char>
    const nick_t: string
    var nicklen: nat
    var o: nat
    var success: bool
    var sent: seq<Sent>
    ghost var grown: nat

    /** The nick buffer holds the configured nick and its underscores, and has room for them. */
    ghost predicate Valid()
      reads this, nick
    {
      && buf.Length == 513 && buf != nick
      && o <= 512
      && nick.Length == (if |nick_t| < NICK_ROOM then NICK_ROOM else |nick_t|) + 1
      && grown <= Retries(nick_t)
      && nicklen == |nick_t| + grown
      && NulFree(nick_t) && nick[..nicklen] == nick_t + Underscores(grown) && nick[nicklen] == NUL
    }

    ghost function View(): Hand
      reads this, buf
    {
      Hand(buf[..], o, grown, success, sent)
    }

    constructor (user: string, realname: string, nick_t: string, password: Option<string>)
      requires NulFree(nick_t)
      ensures Valid() && fresh(buf) && fresh(nick) && this.nick_t == nick_t
      ensures View() == Begun(user, realname, nick_t, password, buf[..])
      ensures InOrder(nick_t, View())
    {
      this.nick_t := nick_t;
      nicklen := |nick_t|;
      buf := new char[513];
      nick := new char[(if |nick_t| < NICK_ROOM then NICK_ROOM else |nick_t|) + 1];
      o, success, grown := 0, false, 0;
      sent := Opening(user, realname, nick_t, password);
      new;
      CopyNick();
      OpeningNicks(user, realname, nick_t, password);
    }

    /** The memcpy of the configured nick with its terminator. */
    method CopyNick()
      requires nick.Length > |nick_t|
      modifies nick
      ensures nick[..|nick_t|] == nick_t + Underscores(0) && nick[|nick_t|] == NUL
    {
      forall i | 0 <= i <= |nick_t| {
        nick[i] := if i < |nick_t| then nick_t[i] else NUL;
      }
    }

    /** The nick is taken: append an underscore and try again (src/irc.c:117-119). */
    method Grow()
      requires Valid() && nicklen < NICK_ROOM
      modifies this`nicklen, this`sent, this`grown, nick
      ensures Valid() && grown == old(grown) + 1
      ensures sent == old(sent) + [Nick(nick_t + Underscores(grown))]
    {
      GrownText(nick_t, grown);
      GrownText(nick_t, grown + 1);
      AppendUnderscore(nick_t + Underscores(grown));
      nicklen := nicklen + 1;
      grown := grown + 1;
      sent := sent + [Nick(CStr(nick[..]))];
    }

    /** nick[nicklen++] = '_', and the terminator after it. */
    method AppendUnderscore(ghost text: string)
      requires nicklen + 1 < nick.Length && nick[..nicklen] == text && NulFree(text + "_")
      modifies nick
      ensures nick[..nicklen + 1] == text + "_" && nick[nicklen + 1] == NUL && CStr(nick[..]) == text + "_"
    {
      nick[nicklen] := '_';
      nick[nicklen + 1] := NUL;
      assert nick[..nicklen + 1] == text + "_";
      CStrIs(nick[..], text + "_");
    }

    /** The reaction to the byte at i (src/irc.c:110-124). */
    method React(i: nat, rl: nat)
      requires Valid() && i < 513 && rl <= 512
      modifies this`success, this`nicklen, this`sent, this`grown, nick
      ensures Valid() && View() == Reacted(nick_t, old(View()), i, rl)
    {
      if buf[i] == '0' {
        success := true;
      } else if buf[i] == '4' {
        if i + 2 < rl && buf[i + 2] == '3' && nicklen < NICK_ROOM {
          Grow();
        } else {
          sent := sent + [Fallback];
        }
      }
    }

    /** One round of the scan (src/irc.c:101-124). */
    method Look(i: nat, rl: nat)
      requires Valid() && 1 <= i < 513 && rl <= 512
      modifies this`success, this`nicklen, this`sent, this`grown, nick, buf
      ensures Valid() && View() == Looked(nick_t, old(View()), i, rl)
    {
      if buf[i - 1] != ' ' {
        if buf[1] != 'I' { return; }
        buf[1] := 'O';
        sent := sent + [Pong(CStr(buf[..]))];
        assert buf[..] == old(buf[..])[1 := 'O'];
      }
      React(i, rl);
    }

    /** The scan of one line for numeric replies (src/irc.c:100-125). */
    method Scan(rl: nat)
      requires Valid() && rl <= 512
      modifies this`success, this`nicklen, this`sent, this`grown, nick, buf
      ensures Valid() && View() == Scanned(nick_t, old(View()), o, rl)
    {
      var i := 1;
      while i < o
        invariant Valid() && i <= if o < 1 then 1 else o
        invariant View() == Scanned(nick_t, old(View()), i, rl)
      {
        Look(i, rl);
        i := i + 1;
      }
    }

    /** One received byte (src/irc.c:95-129). */
    method Take(rbuf: string, j: nat)
      requires Valid() && j < |rbuf| <= 512
      modifies this, buf, nick
      ensures Valid() && View() == Taken(nick_t, old(View()), rbuf, j)
    {
      buf[o] := rbuf[j];
      assert buf[..] == old(buf[..])[o := rbuf[j]];
      if (j > 0 && rbuf[j] == '\n' && rbuf[j - 1] == '\r') || o == 512 {
        buf[o] := NUL;
        assert buf[..] == old(buf[..])[o := rbuf[j]][o := NUL];
        Scan(|rbuf|);
        o := 0;
      } else {
        o := o + 1;
      }
    }

    /** The receive loop (src/irc.c:93-132). */
    method Run(chunks: seq<string>)
      requires Valid() && Reads(chunks)
      modifies this, buf, nick
      ensures Valid() && View() == LoggedIn(nick_t, old(View()), chunks)
    {
      var k := 0;
      assert chunks[0..] == chunks;
      while k < |chunks| && |chunks[k]| > 2 && !success
        invariant k <= |chunks| && Valid() && Reads(chunks[k..])
        invariant LoggedIn(nick_t, old(View()), chunks) == LoggedIn(nick_t, View(), chunks[k..])
      {
        ReceiveAll(chunks[k]);
        assert chunks[k..][1..] == chunks[k + 1..];
        k := k + 1;
      }
    }

    method ReceiveAll(rbuf: string)
      requires Valid() && |rbuf| <= 512
      modifies this, buf, nick
      ensures Valid() && View() == Received(nick_t, old(View()), rbuf, |rbuf|)
    {
      for j := 0 to |rbuf|
        invariant Valid() && View() == Received(nick_t, old(View()), rbuf, j)
      {
        Take(rbuf, j);
      }
    }
  }
}
