/** The lazy unescaper shared by bot_google and bot_urban (src/modules/bot_google.c:76-109,
    src/modules/bot_urban.c:44-77): unescaped stretches are copied as blocks, and only when the next
    escape sequence or the end is reached. */
module Unescape {
  import opened CStrings

  const N_MAX := 400

  /** What a backslash followed by c stands for; unknown escapes are kept as they are. */
  function Meaning(c: char): (u: string)
    ensures |u| <= 2
  {
    if c == '\\' || c == '"' then [c]
    else if c == 'r' then ""
    else if c == 'n' || c == 't' then " "
    else ['\\', c]
  }

  /** The closing quote or the end of the text is at i. */
  predicate Closed(s: string, i: nat)
    requires i <= |s|
  {
    i == |s| || s[i] == '"'
  }

  /** What the text at i decodes to: a character, or the meaning of an escape sequence. */
  function Unit(s: string, i: nat): (u: string)
    requires i < |s|
    ensures |u| <= 2
  {
    if s[i] != '\\' then [s[i]] else if i + 1 == |s| then "" else Meaning(s[i + 1])
  }

  function Next(s: string, i: nat): (j: nat)
    requires i < |s|
    ensures i < j <= |s|
  {
    if s[i] == '\\' && i + 1 < |s| then i + 2 else i + 1
  }

  /** The decoding from i up to the closing quote, without a limit. */
  function Decoded(s: string, i: nat): string
    requires i <= |s|
    decreases |s| - i
  {
    if Closed(s, i) then "" else Unit(s, i) + Decoded(s, Next(s, i))
  }

  /** The same, stopping once N_MAX bytes are out; n of them already are. */
  function Limited(s: string, i: nat, n: nat): (out: string)
    requires i <= |s|
    ensures n + |out| <= if n < N_MAX then N_MAX + 1 else n
    decreases |s| - i
  {
    if Closed(s, i) || n >= N_MAX then ""
    else Unit(s, i) + Limited(s, Next(s, i), n + |Unit(s, i)|)
  }

  /** The scan never meets a backslash directly before the terminator. */
  predicate Terminated(s: string, i: nat, n: nat)
    requires i <= |s|
    decreases |s| - i
  {
    Closed(s, i) || n >= N_MAX ||
    ((s[i] == '\\' ==> i + 1 < |s|) && Terminated(s, Next(s, i), n + |Unit(s, i)|))
  }

  // ---- the loop --------------------------------------------------------------------------------

  /** Copying a stretch of the input to position n of the output. */
  method CopyBlock(url: array<char>, n: nat, mem: string, a: nat, b: nat)
    requires a <= b <= |mem| && n + (b - a) <= url.Length
    modifies url
    ensures url[..n + (b - a)] == old(url[..n]) + mem[a..b]
  {
    forall k | 0 <= k < b - a {
      url[n + k] := mem[a + k];
    }
  }

  /** After out was decoded, the text goes on at i. */
  ghost predicate Decoding(s: string, out: string, i: nat) {
    && i <= |s|
    && |out| <= N_MAX + 1
    && Terminated(s, i, |out|)
    && Limited(s, 0, 0) == out + Limited(s, i, |out|)
  }

  lemma DecodingStep(s: string, out: string, i: nat)
    requires Decoding(s, out, i) && |out| < N_MAX && !Closed(s, i)
    ensures s[i] == '\\' ==> i + 1 < |s|
    ensures Decoding(s, out + Unit(s, i), Next(s, i))
  {
    var u := Unit(s, i);
    var rest := Limited(s, Next(s, i), |out| + |u|);
    assert out + (u + rest) == (out + u) + rest;
  }

  /** url[..n] and the stretch of the input that is not copied yet. */
  ghost function Output(mem: string, url: array<char>, n: nat, last: nat, cur: nat): string
    requires n <= url.Length && last <= cur <= |mem|
    reads url
  {
    url[..n] + mem[last..cur]
  }

  /** The bytes after a stretch can be added to it. */
  lemma Pending(mem: string, url: array<char>, n: nat, last: nat, cur: nat)
    requires n <= url.Length && last <= cur <= |mem|
    ensures last == cur ==> Output(mem, url, n, last, cur) == url[..n]
    ensures cur < |mem| ==> Output(mem, url, n, last, cur + 1) == Output(mem, url, n, last, cur) + [mem[cur]]
    ensures cur + 1 < |mem| ==>
      Output(mem, url, n, last, cur + 2) == Output(mem, url, n, last, cur) + [mem[cur], mem[cur + 1]]
    ensures Output(mem, url, n, last, cur) + "" == Output(mem, url, n, last, cur)
  {
    if cur + 1 < |mem| {
      assert mem[last..cur + 2] == mem[last..cur] + [mem[cur], mem[cur + 1]];
    }
  }

  /** The branches of the loop body for a backslash at cur. */
  method Escape(mem: string, url: array<char>, n0: nat, last0: nat, cur: nat)
    returns (n: nat, last: nat)
    requires last0 <= cur && cur + 1 < |mem| && mem[cur] == '\\'
    requires url.Length >= 512 && n0 + (cur - last0) < N_MAX
    modifies url
    ensures n <= N_MAX && last <= cur + 2
    ensures Output(mem, url, n, last, cur + 2) == old(Output(mem, url, n0, last0, cur)) + Meaning(mem[cur + 1])
  {
    n, last := n0, last0;
    var c := mem[cur + 1];
    if c == '\\' || c == '"' {
      n, last := CopyAndPut(mem, url, n, last, cur, c);
    } else if c == 'r' {
      n, last := CopyAndEnd(mem, url, n, last, cur);
    } else if c == 'n' || c == 't' {
      n, last := CopyAndPut(mem, url, n, last, cur, ' ');
    } else {
      Pending(mem, url, n, last, cur);
    }
  }

  /** Copy the stretch; the escape stands for nothing. */
  method CopyAndEnd(mem: string, url: array<char>, n0: nat, last0: nat, cur: nat)
    returns (n: nat, last: nat)
    requires last0 <= cur && cur + 1 < |mem|
    requires url.Length >= 512 && n0 + (cur - last0) < N_MAX
    modifies url
    ensures n <= N_MAX && last == cur + 2
    ensures Output(mem, url, n, last, cur + 2) == old(Output(mem, url, n0, last0, cur)) + ""
  {
    CopyBlock(url, n0, mem, last0, cur);
    n := n0 + (cur - last0);
    last := cur + 2;
    ghost var out := url[..n];
    url[n] := NUL;
    assert url[..n] == out;
    Pending(mem, url, n, last, last);
  }

  /** Copy the stretch, then store the character that the escape stands for. */
  method CopyAndPut(mem: string, url: array<char>, n0: nat, last0: nat, cur: nat, c: char)
    returns (n: nat, last: nat)
    requires last0 <= cur && cur + 1 < |mem|
    requires url.Length >= 512 && n0 + (cur - last0) < N_MAX
    modifies url
    ensures n <= N_MAX && last == cur + 2
    ensures Output(mem, url, n, last, cur + 2) == old(Output(mem, url, n0, last0, cur)) + [c]
  {
    CopyBlock(url, n0, mem, last0, cur);
    ghost var out := url[..n0 + (cur - last0)];
    n := n0 + (cur + 1 - last0);
    last := cur + 2;
    url[n - 1] := c;
    url[n] := NUL;
    assert url[..n] == out + [c];
    Pending(mem, url, n, last, last);
  }

  /** The loop invariant: what is in url and the stretch not copied yet were decoded so far. */
  ghost predicate At(mem: string, start: nat, body: string, url: array<char>, n: nat, last: nat, cur: nat)
    reads url
  {
    && last <= cur && start <= cur <= start + |body| < |mem|
    && n <= N_MAX && url.Length >= 512
    && (forall k :: 0 <= k < |body| ==> mem[start + k] == body[k] && body[k] != NUL)
    && mem[start + |body|] == NUL
    && Decoding(body, Output(mem, url, n, last, cur), cur - start)
  }

  method EscapeAt(mem: string, ghost start: nat, ghost body: string, url: array<char>, n0: nat, last0: nat, cur: nat)
    returns (n: nat, last: nat)
    requires At(mem, start, body, url, n0, last0, cur)
    requires mem[cur] == '\\' && n0 + (cur - last0) < N_MAX
    modifies url
    ensures At(mem, start, body, url, n, last, cur + 2)
  {
    ghost var out, i := Output(mem, url, n0, last0, cur), cur - start;
    assert i < |body| && mem[cur] == body[i];
    DecodingStep(body, out, i);
    assert mem[cur + 1] == body[i + 1];
    n, last := Escape(mem, url, n0, last0, cur);
    assert Output(mem, url, n, last, cur + 2) == out + Unit(body, i);
    assert Decoding(body, out + Unit(body, i), i + 2);
  }

  lemma PlainAt(mem: string, start: nat, body: string, url: array<char>, n: nat, last: nat, cur: nat)
    requires At(mem, start, body, url, n, last, cur)
    requires mem[cur] != NUL && mem[cur] != '\\' && mem[cur] != '"' && n + (cur - last) < N_MAX
    ensures At(mem, start, body, url, n, last, cur + 1)
  {
    assert cur - start < |body| && mem[cur] == body[cur - start];
    DecodingStep(body, Output(mem, url, n, last, cur), cur - start);
    Pending(mem, url, n, last, cur);
  }

  /** The loop itself. */
  method Scan(mem: string, start: nat, ghost body: string, url: array<char>)
    returns (n: nat, last: nat, cur: nat)
    requires At(mem, start, body, url, 0, start, start)
    modifies url
    ensures At(mem, start, body, url, n, last, cur)
    ensures mem[cur] == NUL || mem[cur] == '"' || n + (cur - last) >= N_MAX
  {
    n, last, cur := 0, start, start;
    while mem[cur] != NUL && mem[cur] != '"' && cur - last + n < N_MAX
      invariant At(mem, start, body, url, n, last, cur)
      decreases start + |body| - cur
    {
      if mem[cur] == '\\' {
        n, last := EscapeAt(mem, start, body, url, n, last, cur);
        cur := cur + 2;
      } else {
        PlainAt(mem, start, body, url, n, last, cur);
        cur := cur + 1;
      }
    }
  }

  /** The copy after the loop. */
  method Flush(mem: string, ghost start: nat, ghost body: string, url: array<char>, n0: nat, last: nat, cur: nat)
    returns (n: nat)
    requires At(mem, start, body, url, n0, last, cur) && NulFree(body)
    requires mem[cur] == NUL || mem[cur] == '"' || n0 + (cur - last) >= N_MAX
    modifies url
    ensures CStr(url[..]) == Limited(body, 0, 0) && n == |CStr(url[..])|
  {
    ghost var out := Output(mem, url, n0, last, cur);
    assert cur - start < |body| ==> mem[cur] == body[cur - start];
    assert out == Limited(body, 0, 0);
    LimitedNulFree(body, 0, 0);
    CopyBlock(url, n0, mem, last, cur);
    n := n0 + (cur - last);
    url[n] := NUL;
    assert url[..n] == out;
    CStrIs(url[..], url[..n]);
  }

  /** The decoding of the downloaded text. start is 4 for bot_google and 24 for bot_urban; url has
      1024 or 512 bytes. */
  method Decode(mem: string, start: nat, url: array<char>) returns (n: nat)
    requires start <= |mem| && NUL in mem[start..]
    requires Terminated(CStr(mem[start..]), 0, 0)
    requires url.Length >= 512
    modifies url
    ensures n <= N_MAX + 1
    ensures CStr(url[..]) == Limited(CStr(mem[start..]), 0, 0) && n == |CStr(url[..])|
  {
    ghost var body := CStr(mem[start..]);
    url[0] := NUL;
    BodyStarts(mem, start, url);
    var last, cur;
    n, last, cur := Scan(mem, start, body, url);
    n := Flush(mem, start, body, url, n, last, cur);
  }

  lemma BodyStarts(mem: string, start: nat, url: array<char>)
    requires start <= |mem| && NUL in mem[start..] && url.Length >= 512
    requires Terminated(CStr(mem[start..]), 0, 0)
    ensures At(mem, start, CStr(mem[start..]), url, 0, start, start)
  {
    var body := CStr(mem[start..]);
    forall k | 0 <= k < |body| ensures mem[start + k] == body[k] && body[k] != NUL {
      assert mem[start..][k] == body[k] && body[k] in body;
    }
    assert Output(mem, url, 0, start, start) == "";
    assert "" + Limited(body, 0, 0) == Limited(body, 0, 0);
  }

  lemma {:induction false} LimitedNulFree(s: string, i: nat, n: nat)
    requires i <= |s| && NulFree(s)
    ensures NulFree(Limited(s, i, n))
    decreases |s| - i
  {
    if !Closed(s, i) && n < N_MAX {
      LimitedNulFree(s, Next(s, i), n + |Unit(s, i)|);
      UnitNulFree(s, i);
    }
  }

  lemma UnitNulFree(s: string, i: nat)
    requires i < |s| && NulFree(s)
    ensures NulFree(Unit(s, i))
  {
    assert s[i] in s && (i + 1 < |s| ==> s[i + 1] in s);
  }

  // ---- what the limit cuts off ---------------------------------------------------------------------

  /** a is the beginning of b: all of it when n bytes and b have at most 400, at least up to byte 400
      otherwise. */
  ghost predicate UpToLimit(n: nat, a: string, b: string) {
    && a <= b
    && (n + |b| <= 400 ==> a == b)
    && (n + |b| > 400 ==> n + |a| >= 400)
  }

  /** The output is the beginning of the full decoding: all of it when that has at most 400 bytes, and
      at least 400 bytes of it otherwise. */
  lemma {:induction false} LimitedIsPrefix(s: string, i: nat, n: nat)
    requires i <= |s|
    ensures UpToLimit(n, Limited(s, i, n), Decoded(s, i))
    decreases |s| - i
  {
    if !Closed(s, i) && n < N_MAX {
      var u, j := Unit(s, i), Next(s, i);
      LimitedIsPrefix(s, j, n + |u|);
      PrefixAfter(u, Limited(s, j, n + |u|), Decoded(s, j), n);
    }
  }

  lemma PrefixAfter(u: string, a: string, b: string, n: nat)
    requires UpToLimit(n + |u|, a, b)
    ensures UpToLimit(n, u + a, u + b)
  {
  }

  // ---- escaping and back -------------------------------------------------------------------------

  /** One character escaped as in section 7 of RFC 8259. */
  function Esc(c: char): (e: string)
    ensures e != ""
  {
    if c == '\\' then "\\\\"
    else if c == '"' then "\\\""
    else if c == '\n' then "\\n"
    else if c == '\t' then "\\t"
    else if c == '\r' then "\\r"
    else [c]
  }

  function Escaped(t: string): string {
    if t == "" then "" else Esc(t[0]) + Escaped(t[1..])
  }

  /** How the program shows a text on one line: line feeds and tabs as spaces, carriage returns dropped. */
  function Shown(t: string): string {
    if t == "" then "" else ShownChar(t[0]) + Shown(t[1..])
  }

  function ShownChar(c: char): (u: string)
    ensures |u| <= 1
  {
    if c == '\n' || c == '\t' then " " else if c == '\r' then "" else [c]
  }

  /** Everything else comes back as it was. */
  lemma {:induction false} ShownAsIs(t: string)
    requires '\n' !in t && '\t' !in t && '\r' !in t
    ensures Shown(t) == t
  {
    if t != "" { ShownAsIs(t[1..]); }
  }

  /** An escape sequence at i decodes to what it shows. */
  lemma EscUnit(s: string, i: nat, c: char)
    requires i <= |s| && Esc(c) <= s[i..]
    ensures i < |s| && s[i] != '"' && (s[i] == '\\' ==> i + 1 < |s|)
    ensures Unit(s, i) == ShownChar(c) && Next(s, i) == i + |Esc(c)|
  {
    assert s[i] == Esc(c)[0];
    if |Esc(c)| == 2 { assert s[i + 1] == Esc(c)[1]; }
  }

  /** Any other character behind a backslash stays there with its backslash. */
  lemma UnknownStays(s: string, i: nat, c: char)
    requires i + 1 < |s| && s[i] == '\\' && s[i + 1] == c
    requires c != '\\' && c != '"' && c != 'n' && c != 't' && c != 'r'
    ensures Unit(s, i) == ['\\', c] && Next(s, i) == i + 2
    ensures Decoded(s, i) == ['\\', c] + Decoded(s, i + 2)
  {
  }

  /** A text that continues at i with t escaped and a closing quote. */
  ghost predicate Quoted(s: string, i: nat, t: string) {
    i <= |s| && Escaped(t) + "\"" <= s[i..]
  }

  lemma QuotedStep(s: string, i: nat, t: string)
    requires Quoted(s, i, t) && t != ""
    ensures Esc(t[0]) <= s[i..]
    ensures Quoted(s, i + |Esc(t[0])|, t[1..])
  {
    var e, rest := Esc(t[0]), Escaped(t[1..]) + "\"";
    assert Escaped(t) + "\"" == e + rest;
    assert s[i..][|e|..] == s[i + |e|..];
    assert (e + rest)[|e|..] == rest;
  }

  lemma QuotedUnit(s: string, i: nat, t: string)
    requires Quoted(s, i, t) && t != ""
    ensures i < |s| && !Closed(s, i) && (s[i] == '\\' ==> i + 1 < |s|)
    ensures Unit(s, i) == ShownChar(t[0]) && Quoted(s, Next(s, i), t[1..])
  {
    QuotedStep(s, i, t);
    EscUnit(s, i, t[0]);
  }

  lemma QuotedEnd(s: string, i: nat)
    requires Quoted(s, i, "")
    ensures Closed(s, i)
  {
    assert s[i..][0] == '"';
  }

  lemma {:induction false} EscapedTerminates(s: string, i: nat, t: string, n: nat)
    requires Quoted(s, i, t)
    ensures Terminated(s, i, n)
    decreases |t|
  {
    if t == "" {
      QuotedEnd(s, i);
    } else {
      QuotedUnit(s, i, t);
      EscapedTerminates(s, Next(s, i), t[1..], n + |Unit(s, i)|);
    }
  }

  lemma {:induction false} EscapedLimited(s: string, i: nat, t: string, n: nat)
    requires n <= 400 && Quoted(s, i, t)
    ensures Limited(s, i, n) == Cut(Shown(t), 400 - n)
    decreases |t|
  {
    if t == "" {
      QuotedEnd(s, i);
    } else if n < 400 {
      QuotedUnit(s, i, t);
      var u := ShownChar(t[0]);
      EscapedLimited(s, Next(s, i), t[1..], n + |u|);
      LimitedStep(s, i, n, u);
      CutAfter(u, Limited(s, Next(s, i), n + |u|), Shown(t[1..]), 400 - n);
      ShownStep(t);
    }
  }

  lemma LimitedStep(s: string, i: nat, n: nat, u: string)
    requires i < |s| && !Closed(s, i) && n < 400 && Unit(s, i) == u
    ensures Limited(s, i, n) == u + Limited(s, Next(s, i), n + |u|)
  {
  }

  lemma ShownStep(t: string)
    requires t != ""
    ensures Shown(t) == ShownChar(t[0]) + Shown(t[1..])
  {
  }

  /** Decoding an escaped and quoted text shows its first 400 bytes, whatever follows the quote. */
  lemma EscapeDecode(s: string, i: nat, t: string, n: nat)
    requires n <= 400 && Quoted(s, i, t)
    ensures Limited(s, i, n) == Cut(Shown(t), 400 - n)
    ensures Terminated(s, i, n)
  {
    EscapedLimited(s, i, t, n);
    EscapedTerminates(s, i, t, n);
  }

  /** At most the first n bytes of a text. */
  function Cut(t: string, n: nat): string { if |t| <= n then t else t[..n] }

  lemma CutAfter(u: string, part: string, t: string, n: nat)
    requires |u| <= n && part == Cut(t, n - |u|)
    ensures u + part == Cut(u + t, n)
  {
  }
}
