/** irc_loop (src/irc.c:139-211): the receive loop over one 513-byte buffer. */
module IrcLoops {
  import opened CStrings
  import opened Options
  import opened IrcFraming
  import opened IrcParse

  predicate WordsKept(buf: string, line: string)
    requires |line| < |buf|
  {
    forall k :: 0 <= k < |line| && line[k] != ' ' ==> buf[k] == line[k]
  }

  /** In-place tokenising leaves every byte as it was, except that some spaces became NUL. */
  ghost predicate Cut(buf: string, line: string, m: Marks)
  {
    var n := |line|;
    && n < |buf| && buf[n] == NUL
    && WordsKept(buf, line)
    && (m.s1 < n ==> buf[m.s1] == NUL)
    && (m.s2 < n ==> buf[m.s2] == NUL)
    && (m.s3 < n ==> buf[m.s3] == NUL)
    && (m.stop < n && line[m.stop] == ':' ==> forall k :: m.stop <= k < n ==> buf[k] == line[k])
  }

  /** The pointers the loop keeps, as indices into the buffer; -1 is NULL. */
  datatype Pointers = Pointers(user: int, command: int, place: int, message: int)

  function PointersAt(line: string, m: Marks): Pointers
    requires AreMarks(line, m)
  {
    var n := |line|;
    Pointers(
      if m.s1 < n then 1 else -1,
      if m.s2 < n then m.s1 + 1 else -1,
      if m.s3 < n then m.s2 + 1 else -1,
      if m.stop < n && line[m.stop] == ':' then m.stop + 1 else -1)
  }

  predicate ReadAs(buf: string, p: Pointers, f: Fields) {
    && p.user <= |buf| && p.command <= |buf| && p.place <= |buf| && p.message <= |buf|
    && StringAt(buf, p.user) == f.user
    && StringAt(buf, p.command) == f.command
    && StringAt(buf, p.place) == f.place
    && StringAt(buf, p.message) == f.message
  }

  /** Reading the strings behind the pointers gives the fields of the line. */
  lemma PointersRead(buf: string, line: string, m: Marks)
    requires AreMarks(line, m) && Cut(buf, line, m)
    ensures ReadAs(buf, PointersAt(line, m), FieldsAt(line, m))
  {
    UserRead(buf, line, m);
    CommandRead(buf, line, m);
    PlaceRead(buf, line, m);
    MessageRead(buf, line, m);
  }

  lemma UserRead(buf: string, line: string, m: Marks)
    requires AreMarks(line, m) && Cut(buf, line, m)
    ensures StringAt(buf, PointersAt(line, m).user) == FieldsAt(line, m).user
  {
    if m.s1 < |line| { FieldRead(buf, line, 1, m.s1); }
  }

  lemma CommandRead(buf: string, line: string, m: Marks)
    requires AreMarks(line, m) && Cut(buf, line, m)
    ensures StringAt(buf, PointersAt(line, m).command) == FieldsAt(line, m).command
  {
    if m.s2 < |line| { FieldRead(buf, line, m.s1 + 1, m.s2); }
  }

  lemma PlaceRead(buf: string, line: string, m: Marks)
    requires AreMarks(line, m) && Cut(buf, line, m)
    ensures StringAt(buf, PointersAt(line, m).place) == FieldsAt(line, m).place
  {
    if m.s3 < |line| { FieldRead(buf, line, m.s2 + 1, m.s3); }
  }

  lemma MessageRead(buf: string, line: string, m: Marks)
    requires AreMarks(line, m) && Cut(buf, line, m)
    ensures StringAt(buf, PointersAt(line, m).message) == FieldsAt(line, m).message
  {
    if m.stop < |line| && line[m.stop] == ':' {
      RestRead(buf, line, m.stop + 1);
    }
  }

  /** The rest of the line, if its bytes are all still in the buffer. */
  lemma RestRead(buf: string, line: string, a: nat)
    requires a <= |line| < |buf| && buf[|line|] == NUL
    requires forall k :: a <= k < |line| ==> buf[k] == line[k]
    ensures StringAt(buf, a) == Some(CStr(line[a..]))
  {
    SegmentString(buf, a, |line|, line[a..]);
  }

  /** A field whose bytes are still in the buffer and that is followed by NUL. */
  lemma FieldRead(buf: string, line: string, a: nat, b: nat)
    requires a <= b <= |line| < |buf| && buf[b] == NUL
    requires WordsKept(buf, line) && NoSpace(line, a, b)
    ensures StringAt(buf, a) == Some(CStr(line[a..b]))
  {
    SegmentString(buf, a, b, line[a..b]);
  }

  /** The tokeniser before byte j: the marks left of j have been seen, the next one has not. */
  ghost predicate Progress(line: string, m: Marks, j: nat, wordcount: nat, start: int, p: Pointers) {
    var n := |line|;
    if wordcount == 0 then
      (j <= m.s1 || m.s1 == n) && p == Pointers(-1, -1, -1, -1)
    else if wordcount == 1 then
      m.s1 < n && m.s1 < j && (j <= m.s2 || m.s2 == n) && start == m.s1 + 1 && p == Pointers(1, -1, -1, -1)
    else if wordcount == 2 then
      m.s2 < n && m.s2 < j && (j <= m.s3 || m.s3 == n) && start == m.s2 + 1 && p == Pointers(1, m.s1 + 1, -1, -1)
    else
      && m.s3 < n && m.s3 < j && p == Pointers(1, m.s1 + 1, m.s2 + 1, -1)
      && (if wordcount == 3 then j <= m.stop || m.stop == n else m.stop < j && m.stop < n && line[m.stop] == ' ')
  }

  lemma MessageLine(line: string)
    requires line != "" && line[0] == ':'
    ensures LineEvent(line) == MessageEvent(FieldsOf(line))
  {
  }

  lemma OtherLine(line: string)
    requires !("PING" <= line) && (line == "" || line[0] != ':')
    ensures LineEvent(line) == None
  {
  }

  class IrcLoop {
    const buf: array<char>
    const nickbuf: array<char>
    var o: int
    var events: seq<Event>
    ghost var framer: Framer

    ghost predicate Valid()
      reads this, buf
    {
      && buf.Length == 513 && nickbuf.Length == 513 && nickbuf != buf
      && -1 <= o < 512
      && framer.rest == buf[..o + 1]
      && events == Events(framer.lines)
    }

    constructor ()
      ensures Valid() && framer == Framer([], "") && fresh(buf) && fresh(nickbuf)
    {
      buf := new char[513];
      nickbuf := new char[513];
      o := -1;
      events := [];
      framer := Framer([], "");
    }

    /** The in-place tokeniser (src/irc.c:161-178) on a line of l - 1 bytes. */
    method Tokenise(l: nat, ghost line: string, ghost m: Marks) returns (p: Pointers)
      requires 2 <= l <= 512 && buf.Length == 513
      requires |line| == l - 1 && buf[..l - 1] == line && buf[l - 1] == NUL && AreMarks(line, m)
      modifies buf
      ensures p == PointersAt(line, m)
      ensures Cut(buf[..], line, m)
    {
      ghost var n := |line|;
      var wordcount: nat, start, j := 0, 0, 1;
      p := Pointers(-1, -1, -1, -1);
      while j < l
        invariant 1 <= j <= l && buf[n] == NUL
        invariant forall k :: 0 <= k < n ==>
          buf[k] == if 1 <= k < j && line[k] == ' ' then NUL else line[k]
        invariant Progress(line, m, j, wordcount, start, p)
      {
        if buf[j] == ' ' {
          buf[j] := NUL;
          wordcount := wordcount + 1;
          if wordcount == 1 {
            p := p.(user := 1);
          } else if wordcount == 2 {
            p := p.(command := start);
          } else if wordcount == 3 {
            p := p.(place := start);
          }
          if j != l - 1 { start := j + 1; }
        } else if buf[j] == ':' && wordcount == 3 {
          if j < l - 1 { p := p.(message := j + 1); }
          break;
        }
        j := j + 1;
      }
    }

    /** strncmp(buf, "PING", 4) == 0. */
    predicate StartsWithPing()
      requires buf.Length == 513
      reads buf
    {
      buf[0] == 'P' && buf[1] == 'I' && buf[2] == 'N' && buf[3] == 'G'
    }

    /** The copy of the nick into nickbuf (src/irc.c:187-196). */
    method Nick(user: string) returns (nick: string)
      requires nickbuf.Length == 513 && |user| < 513 && NulFree(user)
      modifies nickbuf
      ensures nick == NickOf(user)
    {
      var sep := IndexOf(user, '!');
      if sep == |user| { return user; }
      forall k | 0 <= k < sep {
        nickbuf[k] := user[k];
      }
      nickbuf[sep] := NUL;
      SegmentString(nickbuf[..], 0, sep, user[..sep]);
      assert nickbuf[..][0..] == nickbuf[..];
      CStrIs(user[..sep], user[..sep]);
      nick := CStr(nickbuf[..]);
    }

    /** The body of the loop for one complete line (src/irc.c:156-204). */
    method HandleLine(l: nat, ghost line: string) returns (e: Option<Event>)
      requires 1 <= l < 512 && buf.Length == 513 && nickbuf.Length == 513 && nickbuf != buf
      requires buf[..l - 1] == line && buf[l - 1] == NUL
      modifies buf, nickbuf
      ensures e == LineEvent(line)
    {
      assert "PING" <= line <==> StartsWithPing() by {
        assert forall k :: 0 <= k < l - 1 ==> buf[k] == line[k];
      }
      if StartsWithPing() {
        e := AnswerPing(l, line);
      } else if buf[0] == ':' {
        assert line != "" && line[0] == ':';
        ghost var m := MarksOf(line);
        MessageLine(line);
        e := HandleMessage(l, line, m);
      } else {
        OtherLine(line);
        e := None;
      }
    }

    /** PING becomes PONG in place, and the buffer is sent back as it is. */
    method AnswerPing(l: nat, ghost line: string) returns (e: Option<Event>)
      requires 1 <= l < 512 && buf.Length == 513
      requires buf[..l - 1] == line && buf[l - 1] == NUL && "PING" <= line
      modifies buf
      ensures e == Some(Pong(CStr(line[1 := 'O'])))
    {
      buf[1] := 'O';
      SegmentString(buf[..], 0, l - 1, line[1 := 'O']);
      assert buf[..][0..] == buf[..];
      e := Some(Pong(CStr(buf[..])));
    }

    /** A prefixed line: tokenise it and look for a channel or private message. */
    method HandleMessage(l: nat, ghost line: string, ghost m: Marks) returns (e: Option<Event>)
      requires 2 <= l < 512 && buf.Length == 513 && nickbuf.Length == 513 && nickbuf != buf
      requires buf[..l - 1] == line && buf[l - 1] == NUL && AreMarks(line, m)
      modifies buf, nickbuf
      ensures e == MessageEvent(FieldsAt(line, m))
    {
      var p := Tokenise(l, line, m);
      PointersRead(buf[..], line, m);
      if p.command < 0 { return None; }
      var user, command := CStr(buf[p.user..]), CStr(buf[p.command..]);
      assert buf[..][p.user..] == buf[p.user..] && buf[..][p.command..] == buf[p.command..];
      if !("PRIVMSG" <= command || "NOTICE" <= command) { return None; }
      if p.place < 0 || p.message < 0 { return None; }
      var place, message := CStr(buf[p.place..]), CStr(buf[p.message..]);
      assert buf[..][p.place..] == buf[p.place..] && buf[..][p.message..] == buf[p.message..];
      var target := place;
      if !IsChannel(place) {
        target := Nick(user);
      }
      e := Some(Check(user, target, message));
    }

    /** One read of the loop (src/irc.c:146-206). */
    method Receive(rbuf: string)
      requires Valid() && FitsRead(framer, rbuf)
      modifies this, buf, nickbuf
      ensures Valid() && framer == Feed(old(framer), rbuf, |rbuf|)
    {
      for i := 0 to |rbuf|
        invariant Valid() && framer == Feed(old(framer), rbuf, i)
      {
        TakeByte(rbuf, i);
      }
    }

    method TakeByte(rbuf: string, i: nat)
      requires Valid() && i < |rbuf| && |framer.rest| < MAX_LINE
      requires i > 0 && rbuf[i - 1] == '\r' ==> framer.rest != ""
      modifies this, buf, nickbuf
      ensures Valid() && framer == Push(old(framer), i > 0 && rbuf[i - 1] == '\r', rbuf[i])
    {
      o := o + 1;
      buf[o] := rbuf[i];
      assert buf[..o] == framer.rest && buf[..o + 1] == framer.rest + [rbuf[i]];
      if (i > 0 && rbuf[i] == '\n' && rbuf[i - 1] == '\r') || o == 512 {
        FinishLine();
      } else {
        framer := framer.(rest := framer.rest + [rbuf[i]]);
      }
    }

    /** A line is complete at index o (src/irc.c:150-204). */
    method FinishLine()
      requires buf.Length == 513 && nickbuf.Length == 513 && nickbuf != buf
      requires 1 <= o < 512 && framer.rest == buf[..o] && events == Events(framer.lines)
      modifies this, buf, nickbuf
      ensures Valid() && framer == Framer(old(framer.lines) + [old(framer.rest)[..|old(framer.rest)| - 1]], "")
    {
      buf[if o == 512 then o + 1 else o - 1] := NUL;
      var l := o;
      o := -1;
      ghost var line := framer.rest[..|framer.rest| - 1];
      assert buf[..l - 1] == line;
      Record(l, framer.lines, line);
      framer := Framer(framer.lines + [line], "");
    }

    method Record(l: nat, ghost lines: seq<string>, ghost line: string)
      requires 1 <= l < 512 && buf.Length == 513 && nickbuf.Length == 513 && nickbuf != buf
      requires buf[..l - 1] == line && buf[l - 1] == NUL && events == Events(lines)
      modifies this`events, buf, nickbuf
      ensures events == Events(lines + [line])
    {
      var e := HandleLine(l, line);
      EventsSnoc(lines, line);
      if e.Some? {
        events := events + [e.value];
      }
    }

    /** irc_loop over all the reads of a connection. */
    method Run(chunks: seq<string>)
      requires Valid() && framer == Framer([], "") && Fits(chunks)
      modifies this, buf, nickbuf
      ensures Valid() && framer == FeedAll(chunks)
    {
      for k := 0 to |chunks|
        invariant Valid() && framer == FeedAll(chunks[..k])
      {
        Receive(chunks[k]);
        assert chunks[..k + 1][..k] == chunks[..k];
      }
      assert chunks[..|chunks|] == chunks;
    }
  }

  /** Every way of cutting a stream of lines into reads, short of splitting a CR LF, gives the same
      replies and command checks, one per line, in order; and it keeps the buffer index in bounds exactly
      when the lines have at most 512 bytes with their CR LF. */
  lemma EveryLineHandled(lines: seq<string>, chunks: seq<string>)
    requires forall i :: 0 <= i < |lines| ==> NoCrlf(lines[i])
    requires Concat(chunks) == Join(lines) && NeverSplits(chunks)
    ensures Fits(chunks) <==> forall i :: 0 <= i < |lines| ==> |lines[i]| + 2 <= MAX_LINE
    ensures FeedAll(chunks) == Framer(lines, "")
    ensures Events(FeedAll(chunks).lines) == Events(lines)
  {
    SplitJoin(lines);
    StreamFitsExactly(chunks);
    LinesIffNeverSplit(chunks);
  }

  lemma TraceDependsOnStreamAlone(chunks1: seq<string>, chunks2: seq<string>)
    requires Concat(chunks1) == Concat(chunks2) && NeverSplits(chunks1) && NeverSplits(chunks2)
    ensures Events(FeedAll(chunks1).lines) == Events(FeedAll(chunks2).lines)
  {
    LinesIffNeverSplit(chunks1);
    LinesIffNeverSplit(chunks2);
  }

  /** Of two PINGs whose CR LF in between is split over two reads, only one is answered. */
  lemma SplitCrlfLosesALine(a: string, b: string)
    requires NoCrlf(a) && NoCrlf(b) && "PING" <= a && "PING" <= b
    ensures var chunks := [a + "\r", "\n" + b + "\r\n"];
      && |Events(FeedAll(chunks).lines)| == 1
      && |Events(Split(Concat(chunks)).lines)| == 2
  {
    SplitGlues(a, b);
    assert "PING" <= a + "\r\n" + b;
    PingAnswered([], a + "\r\n" + b);
    PingAnswered([], a);
    PingAnswered([a], b);
  }

  lemma PingAnswered(lines: seq<string>, line: string)
    requires "PING" <= line
    ensures |Events(lines + [line])| == |Events(lines)| + 1
    ensures lines == [] ==> |Events([line])| == 1
  {
    assert (lines + [line])[..|lines|] == lines;
    assert lines == [] ==> lines + [line] == [line];
  }
}
