/** Splitting the IRC byte stream into lines (src/irc.c:145-152).
    Split is the reference, a scan that never forgets; Feed is what the receive loop does, which
    looks for CR LF inside one read only. */
module IrcFraming {

  /** The limit of section 2.3 of RFC 1459, CR LF included. */
  const MAX_LINE := 512

  /** The complete lines so far, without their CR LF, and the bytes after the last one. */
  datatype Framer = Framer(lines: seq<string>, rest: string)

  predicate EndsCr(s: string) { s != "" && s[|s| - 1] == '\r' }

  /** Take in one byte; afterCr says whether the byte before it is known to be a CR. */
  function Push(f: Framer, afterCr: bool, c: char): Framer {
    if afterCr && c == '\n' && f.rest != "" then Framer(f.lines + [f.rest[..|f.rest| - 1]], "")
    else f.(rest := f.rest + [c])
  }

  /** The lines of a stream. */
  function Split(s: string): Framer {
    if s == "" then Framer([], "")
    else
      var f := Split(s[..|s| - 1]);
      Push(f, EndsCr(f.rest), s[|s| - 1])
  }

  // ---- the reference is right ------------------------------------------------------------

  predicate CrlfAt(s: string, j: nat) {
    j + 1 < |s| && s[j] == '\r' && s[j + 1] == '\n'
  }

  ghost predicate NoCrlf(s: string) {
    forall j: nat :: !CrlfAt(s, j)
  }

  /** The stream made of these lines. */
  function Join(lines: seq<string>): string {
    if lines == [] then "" else Join(lines[..|lines| - 1]) + lines[|lines| - 1] + "\r\n"
  }

  lemma SplitSnoc(s: string, c: char)
    ensures Split(s + [c]) == Push(Split(s), EndsCr(Split(s).rest), c)
  {
    assert (s + [c])[..|s|] == s;
  }

  /** Splitting loses and reorders nothing, and leaves no CR LF inside a line or in the rest. */
  lemma {:induction false} SplitIsExact(s: string)
    ensures Join(Split(s).lines) + Split(s).rest == s
    ensures NoCrlf(Split(s).rest)
    ensures forall i :: 0 <= i < |Split(s).lines| ==> NoCrlf(Split(s).lines[i])
  {
    if s != "" {
      var p, c := s[..|s| - 1], s[|s| - 1];
      SplitIsExact(p);
      PushIsExact(Split(p), c);
      assert s == p + [c];
    }
  }

  lemma PushIsExact(f: Framer, c: char)
    requires NoCrlf(f.rest) && forall i :: 0 <= i < |f.lines| ==> NoCrlf(f.lines[i])
    ensures var g := Push(f, EndsCr(f.rest), c);
      && Join(g.lines) + g.rest == Join(f.lines) + f.rest + [c]
      && NoCrlf(g.rest) && forall i :: 0 <= i < |g.lines| ==> NoCrlf(g.lines[i])
  {
    if EndsCr(f.rest) && c == '\n' {
      var line := f.rest[..|f.rest| - 1];
      assert (f.lines + [line])[..|f.lines|] == f.lines;
      assert f.rest + [c] == line + "\r\n";
      forall j: nat ensures !CrlfAt(line, j) {
        assert !CrlfAt(f.rest, j);
      }
    } else {
      forall j: nat ensures !CrlfAt(f.rest + [c], j) {
        assert !CrlfAt(f.rest, j);
      }
    }
  }

  lemma SplitStep(s: string, more: string, n: nat)
    requires 0 < n <= |more|
    ensures var f := Split(s + more[..n - 1]);
      Split(s + more[..n]) == Push(f, EndsCr(f.rest), more[n - 1])
  {
    SplitSnoc(s + more[..n - 1], more[n - 1]);
    assert s + more[..n] == (s + more[..n - 1]) + [more[n - 1]];
  }

  lemma PushPlain(f: Framer, line: string, k: nat)
    requires NoCrlf(line) && k < |line| && f.rest == line[..k]
    ensures Push(f, EndsCr(f.rest), line[k]) == f.(rest := line[..k + 1])
  {
    if EndsCr(f.rest) { assert !CrlfAt(line, k - 1); }
    assert line[..k + 1] == line[..k] + [line[k]];
  }

  lemma {:induction false} AppendPrefix(s: string, line: string, k: nat)
    requires Split(s).rest == "" && NoCrlf(line) && k <= |line|
    ensures Split(s + line[..k]) == Framer(Split(s).lines, line[..k])
  {
    if k == 0 {
      assert s + line[..0] == s;
    } else {
      AppendPrefix(s, line, k - 1);
      SplitStep(s, line, k);
      PushPlain(Framer(Split(s).lines, line[..k - 1]), line, k - 1);
    }
  }

  lemma PushCrlf(f: Framer)
    ensures Push(Push(f, EndsCr(f.rest), '\r'), true, '\n') == Framer(f.lines + [f.rest], "")
  {
    assert (f.rest + ['\r'])[..|f.rest|] == f.rest;
  }

  lemma AppendCrlf(s: string, line: string)
    requires Split(s).rest == "" && NoCrlf(line)
    ensures Split(s + line + "\r\n") == Framer(Split(s).lines + [line], "")
  {
    var t := s + line;
    assert Split(t) == Framer(Split(s).lines, line) by {
      AppendPrefix(s, line, |line|);
      assert line[..|line|] == line;
    }
    SplitCrlf(t);
    assert t + "\r\n" == t + ['\r'] + ['\n'];
  }

  lemma SplitCrlf(t: string)
    ensures Split(t + ['\r'] + ['\n']) == Framer(Split(t).lines + [Split(t).rest], "")
  {
    SplitSnoc(t, '\r');
    SplitSnoc(t + ['\r'], '\n');
    PushCrlf(Split(t));
  }

  /** Lines without a CR LF come back from their stream as they were. */
  lemma {:induction false} SplitJoin(lines: seq<string>)
    requires forall i :: 0 <= i < |lines| ==> NoCrlf(lines[i])
    ensures Split(Join(lines)) == Framer(lines, "")
  {
    if lines != [] {
      var k := |lines| - 1;
      SplitJoin(lines[..k]);
      AppendCrlf(Join(lines[..k]), lines[k]);
      assert lines == lines[..k] + [lines[k]];
    }
  }

  // ---- the receive loop ------------------------------------------------------------------

  /** The loop after the first n bytes of a read: it knows a CR only from the same read. */
  function Feed(f: Framer, chunk: string, n: nat): Framer
    requires n <= |chunk|
  {
    if n == 0 then f
    else Push(Feed(f, chunk, n - 1), n >= 2 && chunk[n - 2] == '\r', chunk[n - 1])
  }

  function FeedAll(chunks: seq<string>): Framer {
    if chunks == [] then Framer([], "")
    else
      var last := chunks[|chunks| - 1];
      Feed(FeedAll(chunks[..|chunks| - 1]), last, |last|)
  }

  function Concat(chunks: seq<string>): string {
    if chunks == [] then "" else Concat(chunks[..|chunks| - 1]) + chunks[|chunks| - 1]
  }

  /** The read starts with the LF whose CR ended the stream before it. */
  predicate Splits(before: string, chunk: string) {
    chunk != "" && chunk[0] == '\n' && EndsCr(before)
  }

  /** No read starts between a CR and its LF. */
  predicate NeverSplits(chunks: seq<string>) {
    chunks == [] ||
    (NeverSplits(chunks[..|chunks| - 1]) && !Splits(Concat(chunks[..|chunks| - 1]), chunks[|chunks| - 1]))
  }

  lemma RestEndsCr(s: string)
    ensures EndsCr(Split(s).rest) == EndsCr(s)
  {
  }

  /** One read: the loop stays with the reference unless the read starts at a split CR LF, and once
      behind in the number of lines it stays behind. */
  lemma {:induction false} FeedFollows(f: Framer, s: string, chunk: string, n: nat)
    requires n <= |chunk|
    requires |f.lines| <= |Split(s).lines|
    ensures var g, r := Feed(f, chunk, n), Split(s + chunk[..n]);
      && (f == Split(s) && !Splits(s, chunk) ==> g == r)
      && |g.lines| <= |r.lines|
      && (|f.lines| < |Split(s).lines| || (n > 0 && Splits(s, chunk)) ==> |g.lines| < |r.lines|)
  {
    if n == 0 {
      assert s + chunk[..0] == s;
    } else {
      FeedFollows(f, s, chunk, n - 1);
      SplitStep(s, chunk, n);
      LastOf(s, chunk, n - 1);
      PushFollows(Feed(f, chunk, n - 1), Split(s + chunk[..n - 1]), n >= 2 && chunk[n - 2] == '\r', chunk[n - 1]);
    }
  }

  lemma LastOf(s: string, chunk: string, n: nat)
    requires n <= |chunk|
    ensures EndsCr(Split(s + chunk[..n]).rest) == if n == 0 then EndsCr(s) else chunk[n - 1] == '\r'
  {
    RestEndsCr(s + chunk[..n]);
    if n == 0 { assert s + chunk[..0] == s; }
  }

  /** Knowing less about the byte before can only cost a line. */
  lemma PushFollows(g: Framer, r: Framer, afterCr: bool, c: char)
    requires |g.lines| <= |r.lines| && (afterCr ==> EndsCr(r.rest))
    ensures var g', r' := Push(g, afterCr, c), Push(r, EndsCr(r.rest), c);
      && |g'.lines| <= |r'.lines|
      && (|g.lines| < |r.lines| ==> |g'.lines| < |r'.lines|)
      && (EndsCr(r.rest) && !afterCr && c == '\n' ==> |g'.lines| < |r'.lines|)
      && (g == r && (c == '\n' ==> afterCr == EndsCr(r.rest)) ==> g' == r')
  {
  }

  lemma {:induction false} FeedAllFollows(chunks: seq<string>)
    ensures |FeedAll(chunks).lines| <= |Split(Concat(chunks)).lines|
    ensures NeverSplits(chunks) ==> FeedAll(chunks) == Split(Concat(chunks))
    ensures !NeverSplits(chunks) ==> |FeedAll(chunks).lines| < |Split(Concat(chunks)).lines|
  {
    if chunks != [] {
      var k := |chunks| - 1;
      FeedAllFollows(chunks[..k]);
      FeedFollows(FeedAll(chunks[..k]), Concat(chunks[..k]), chunks[k], |chunks[k]|);
      assert chunks[k][..|chunks[k]|] == chunks[k];
    }
  }

  /** The loop yields exactly the lines of the stream if and only if no read splits a CR LF. */
  lemma LinesIffNeverSplit(chunks: seq<string>)
    ensures FeedAll(chunks).lines == Split(Concat(chunks)).lines <==> NeverSplits(chunks)
    ensures FeedAll(chunks) == Split(Concat(chunks)) <==> NeverSplits(chunks)
  {
    FeedAllFollows(chunks);
  }

  // ---- the 512-byte buffer -----------------------------------------------------------------

  /** The buffer index stays below 512 before each of the first n bytes of the read. */
  ghost predicate FitsUpTo(f: Framer, chunk: string, n: nat)
    requires n <= |chunk|
  {
    forall i :: 0 <= i < n ==> |Feed(f, chunk, i).rest| < MAX_LINE
  }

  ghost predicate FitsRead(f: Framer, chunk: string) { FitsUpTo(f, chunk, |chunk|) }

  ghost predicate Fits(chunks: seq<string>) {
    forall k :: 0 <= k < |chunks| ==> FitsRead(FeedAll(chunks[..k]), chunks[k])
  }

  /** Every line of the stream has at most 512 bytes with its CR LF. */
  ghost predicate LinesFit(f: Framer) {
    |f.rest| <= MAX_LINE && forall i :: 0 <= i < |f.lines| ==> |f.lines[i]| + 2 <= MAX_LINE
  }

  lemma PushFits(f: Framer, afterCr: bool, c: char)
    ensures LinesFit(Push(f, afterCr, c)) <==> LinesFit(f) && |f.rest| < MAX_LINE
  {
    var g := Push(f, afterCr, c);
    if g.lines != f.lines {
      assert g.lines[|f.lines|] == f.rest[..|f.rest| - 1];
      assert forall i :: 0 <= i < |f.lines| ==> g.lines[i] == f.lines[i];
    }
  }

  lemma {:induction false} FeedFits(f: Framer, chunk: string, n: nat)
    requires n <= |chunk|
    ensures LinesFit(Feed(f, chunk, n)) <==> LinesFit(f) && FitsUpTo(f, chunk, n)
  {
    if n > 0 {
      FeedFits(f, chunk, n - 1);
      PushFits(Feed(f, chunk, n - 1), n >= 2 && chunk[n - 2] == '\r', chunk[n - 1]);
    }
  }

  lemma FitsInit(chunks: seq<string>)
    requires chunks != [] && Fits(chunks)
    ensures var k := |chunks| - 1; Fits(chunks[..k]) && FitsRead(FeedAll(chunks[..k]), chunks[k])
  {
    var init := chunks[..|chunks| - 1];
    forall i | 0 <= i < |init| ensures FitsRead(FeedAll(init[..i]), init[i]) {
      assert init[..i] == chunks[..i] && init[i] == chunks[i];
    }
  }

  lemma FitsSnoc(chunks: seq<string>)
    requires chunks != []
    requires var k := |chunks| - 1; Fits(chunks[..k]) && FitsRead(FeedAll(chunks[..k]), chunks[k])
    ensures Fits(chunks)
  {
    var init := chunks[..|chunks| - 1];
    forall i | 0 <= i < |chunks| ensures FitsRead(FeedAll(chunks[..i]), chunks[i]) {
      if i < |init| {
        assert init[..i] == chunks[..i] && init[i] == chunks[i];
      } else {
        assert chunks[..i] == init;
      }
    }
  }

  /** For every list of reads: the buffer index stays in bounds if and only if no line that the loop
      finds, and not the rest, exceeds 512 bytes. */
  lemma {:induction false} FitsExactly(chunks: seq<string>)
    ensures Fits(chunks) <==> LinesFit(FeedAll(chunks))
  {
    if chunks != [] {
      var k := |chunks| - 1;
      FitsExactly(chunks[..k]);
      FeedFits(FeedAll(chunks[..k]), chunks[k], |chunks[k]|);
      if Fits(chunks) { FitsInit(chunks); }
      if LinesFit(FeedAll(chunks)) { FitsSnoc(chunks); }
    }
  }

  /** In terms of the stream: however it is cut into reads that split no CR LF, the index stays in bounds
      if and only if the lines of the stream have at most 512 bytes. */
  lemma StreamFitsExactly(chunks: seq<string>)
    requires NeverSplits(chunks)
    ensures Fits(chunks) <==> LinesFit(Split(Concat(chunks)))
  {
    FitsExactly(chunks);
    FeedAllFollows(chunks);
  }

  lemma OneLine(line: string)
    requires NoCrlf(line)
    ensures Split(line + "\r\n") == Framer([line], "")
  {
    AppendCrlf("", line);
    assert "" + line == line;
    assert Split("").lines + [line] == [line];
  }

  /** A single line stays inside the buffer exactly when it has at most 510 bytes before its CR LF,
      however it is read, short of splitting that. */
  lemma LongLineOverruns(line: string, chunks: seq<string>)
    requires NoCrlf(line) && Concat(chunks) == line + "\r\n" && NeverSplits(chunks)
    ensures Fits(chunks) <==> |line| <= 510
  {
    StreamFitsExactly(chunks);
    OneLine(line);
    assert Split(Concat(chunks)).lines[0] == line;
  }

  /** Two reads that the program can receive, which takes at most 512 bytes at a time (src/net.c:146). */
  lemma LongLineIsReceivable(line: string)
    requires |line| == 511 && NoCrlf(line)
    ensures var chunks := [line, "\r\n"];
      && (forall k :: 0 <= k < |chunks| ==> |chunks[k]| <= 512)
      && Concat(chunks) == line + "\r\n" && NeverSplits(chunks) && !Fits(chunks)
  {
    var chunks := [line, "\r\n"];
    TwoReads(line, "\r\n");
    LongLineOverruns(line, chunks);
  }

  lemma TwoReads(first: string, second: string)
    ensures FeedAll([first, second]) == Feed(Feed(Framer([], ""), first, |first|), second, |second|)
    ensures Concat([first, second]) == first + second
    ensures NeverSplits([first, second]) <==> !Splits(first, second)
  {
    assert [first, second][..1] == [first] && [first][..0] == [];
    assert "" + first == first;
    assert FeedAll([first]) == Feed(Framer([], ""), first, |first|);
    assert Concat([first]) == first && NeverSplits([first]);
  }

  // ---- a split CR LF -----------------------------------------------------------------------------

  lemma {:induction false} FeedPlain(f: Framer, chunk: string, n: nat)
    requires n <= |chunk| && NoCrlf(chunk[..n])
    ensures Feed(f, chunk, n) == f.(rest := f.rest + chunk[..n])
  {
    if n == 0 {
      assert f.rest + chunk[..0] == f.rest;
    } else {
      var p, s := chunk[..n - 1], chunk[..n];
      forall j: nat ensures !CrlfAt(p, j) {
        assert !CrlfAt(s, j);
      }
      FeedPlain(f, chunk, n - 1);
      if n >= 2 { assert !CrlfAt(s, n - 2); }
      assert s == p + [chunk[n - 1]];
    }
  }

  /** Two lines whose CR LF in between is split are taken for one, with the CR LF inside. */
  lemma SplitGlues(a: string, b: string)
    requires NoCrlf(a) && NoCrlf(b)
    ensures var chunks := [a + "\r", "\n" + b + "\r\n"];
      && Concat(chunks) == a + "\r\n" + b + "\r\n" && !NeverSplits(chunks)
      && FeedAll(chunks) == Framer([a + "\r\n" + b], "")
      && Split(Concat(chunks)) == Framer([a, b], "")
  {
    var first, second := a + "\r", "\n" + b + "\r\n";
    TwoReads(first, second);
    FirstHalf(a);
    SecondHalf(first, b);
    assert first + second == a + "\r\n" + b + "\r\n";
    assert first + ("\n" + b) == a + "\r\n" + b;
    TwoLines(a, b);
  }

  lemma TwoLines(a: string, b: string)
    requires NoCrlf(a) && NoCrlf(b)
    ensures Split(a + "\r\n" + b + "\r\n") == Framer([a, b], "")
  {
    OneLine(a);
    AppendCrlf(a + "\r\n", b);
    assert [a] + [b] == [a, b];
  }

  lemma FirstHalf(a: string)
    requires NoCrlf(a)
    ensures Feed(Framer([], ""), a + "\r", |a| + 1) == Framer([], a + "\r")
  {
    var s := a + "\r";
    assert s[..|s|] == s;
    forall j: nat ensures !CrlfAt(s, j) {
      assert !CrlfAt(a, j);
    }
    FeedPlain(Framer([], ""), s, |s|);
    assert "" + s == s;
  }

  lemma SecondHalf(rest: string, b: string)
    requires NoCrlf(b)
    ensures var chunk := "\n" + b + "\r\n";
      Feed(Framer([], rest), chunk, |chunk|) == Framer([rest + ("\n" + b)], "")
  {
    var chunk := "\n" + b + "\r\n";
    var n, plain := |b| + 2, "\n" + b + "\r";
    assert chunk[..n] == plain;
    forall j: nat ensures !CrlfAt(plain, j) {
      if 0 < j { assert !CrlfAt(b, j - 1); }
    }
    FeedPlain(Framer([], rest), chunk, n);
    assert chunk[n - 1] == '\r' && chunk[n] == '\n';
    assert (rest + plain)[..|rest + plain| - 1] == rest + ("\n" + b);
  }
}
