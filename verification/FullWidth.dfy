/** The full-width encoder (handle_fw, src/modules/bot_fun.c:49-80). */
module FullWidth {
  import opened Options

  newtype byte = x: int | 0 <= x < 256

  const LIMIT := 170

  // ---- UTF-8, section 3 of RFC 3629 ---------------------------------------------------------

  predicate Tail(b: byte) { 0x80 <= b <= 0xBF }

  /** One code point and the number of bytes it takes; overlong forms, surrogates and values beyond
      U+10FFFF are malformed. */
  function DecodeOne(s: seq<byte>): (r: Option<(nat, nat)>)
    ensures r.Some? ==> 0 < r.value.1 <= |s|
  {
    if s == [] then None
    else
      var b0 := s[0] as nat;
      if b0 < 0x80 then Some((b0, 1))
      else if 0xC2 <= b0 <= 0xDF && |s| >= 2 && Tail(s[1]) then
        Some(((b0 - 0xC0) * 64 + (s[1] as nat - 0x80), 2))
      else if 0xE0 <= b0 <= 0xEF && |s| >= 3 && Tail(s[1]) && Tail(s[2]) then
        var v := (b0 - 0xE0) * 4096 + (s[1] as nat - 0x80) * 64 + (s[2] as nat - 0x80);
        if v >= 0x800 && !(0xD800 <= v <= 0xDFFF) then Some((v, 3)) else None
      else if 0xF0 <= b0 <= 0xF4 && |s| >= 4 && Tail(s[1]) && Tail(s[2]) && Tail(s[3]) then
        var v := (b0 - 0xF0) * 262144 + (s[1] as nat - 0x80) * 4096 + (s[2] as nat - 0x80) * 64 + (s[3] as nat - 0x80);
        if 0x10000 <= v <= 0x10FFFF then Some((v, 4)) else None
      else None
  }

  /** The code points of a whole string, unless it is malformed somewhere. */
  function DecodeUtf8(s: seq<byte>): Option<seq<nat>>
    decreases |s|
  {
    if s == [] then Some([])
    else
      var one := DecodeOne(s);
      if one.None? then None
      else
        var rest := DecodeUtf8(s[one.value.1..]);
        if rest.None? then None else Some([one.value.0] + rest.value)
  }

  // ---- the encoder ---------------------------------------------------------------------------

  predicate Kept(c: byte) { 0x20 <= c <= 0x7F }

  /** The three bytes the program stores for a kept byte. */
  function Triple(c: byte): (t: seq<byte>)
    requires Kept(c)
    ensures |t| == 3
  {
    if c == 0x20 then [0xE3, 0x80, 0x80]
    else
      var s := 0xBC60 + c as int + (if c >= 0x60 then 0xC0 else 0);
      [0xEF, (s / 256 % 256) as byte, (s % 256) as byte]
  }

  function Encode(kept: seq<byte>): seq<byte>
    requires AllKept(kept)
  {
    if kept == [] then [] else Triple(kept[0]) + Encode(kept[1..])
  }

  predicate AllKept(s: seq<byte>) { forall k :: 0 <= k < |s| ==> Kept(s[k]) }

  lemma {:induction false} EncodeSnoc(kept: seq<byte>, c: byte)
    requires AllKept(kept) && Kept(c)
    ensures Encode(kept + [c]) == Encode(kept) + Triple(c)
    ensures |Encode(kept)| == 3 * |kept|
  {
    if kept == [] {
      assert [c][1..] == [] && [] + [c] == [c];
      assert Encode([c]) == Triple(c) + [];
    } else {
      EncodeSnoc(kept[1..], c);
      assert (kept + [c])[1..] == kept[1..] + [c];
      assert Triple(kept[0]) + (Encode(kept[1..]) + Triple(c)) == (Triple(kept[0]) + Encode(kept[1..])) + Triple(c);
    }
  }

  /** The bytes that are not dropped. */
  function Filtered(args: seq<byte>): (kept: seq<byte>)
    ensures AllKept(kept) && |kept| <= |args|
  {
    if args == [] then []
    else Filtered(args[..|args| - 1]) + (if Kept(args[|args| - 1]) then [args[|args| - 1]] else [])
  }

  function FirstBytes(args: seq<byte>): seq<byte> {
    if |args| > LIMIT then args[..LIMIT] else args
  }

  /** The full-width form of a kept byte. */
  function Wide(c: byte): nat
    requires Kept(c)
  {
    if c == 0x20 then 0x3000 else 0xFEE0 + c as nat
  }

  function Widened(args: seq<byte>): seq<nat>
    requires AllKept(args)
  {
    seq(|args|, k requires 0 <= k < |args| => Wide(args[k]))
  }

  method HandleFw(args: seq<byte>) returns (buf: array<byte>, q: nat)
    ensures buf.Length == 511 && fresh(buf)
    ensures q == |Filtered(FirstBytes(args))| && 3 * q < 511
    ensures buf[..3 * q] == Encode(Filtered(FirstBytes(args))) && buf[3 * q] == 0
  {
    buf := new byte[511];
    q := 0;
    var used := FirstBytes(args);
    for i := 0 to |used|
      invariant q == |Filtered(used[..i])| <= i
      invariant buf[..3 * q] == Encode(Filtered(used[..i]))
    {
      q := Widen(buf, used, i, q);
    }
    assert used[..|used|] == used;
    ghost var out := buf[..3 * q];
    buf[q * 3] := 0;
    assert buf[..3 * q] == out;
  }

  /** The body of the loop for byte i of the argument. */
  method Widen(buf: array<byte>, args: seq<byte>, i: nat, q0: nat) returns (q: nat)
    requires i < |args| && q0 == |Filtered(args[..i])| && 3 * q0 + 2 < buf.Length
    requires buf[..3 * q0] == Encode(Filtered(args[..i]))
    modifies buf
    ensures q0 <= q <= q0 + 1 && q == |Filtered(args[..i + 1])|
    ensures buf[..3 * q] == Encode(Filtered(args[..i + 1]))
  {
    q := q0;
    FilteredStep(args, i);
    // a signed char widened to unsigned short: bytes from 0x80 up become 0xff80 and more
    var c := if args[i] >= 0x80 then args[i] as int + 0xFF00 else args[i] as int;
    if c < 0x20 || c > 0x7F { return; }
    Store(buf, Filtered(args[..i]), q, args[i]);
    q := q + 1;
  }

  lemma FilteredStep(s: seq<byte>, i: nat)
    requires i < |s|
    ensures Filtered(s[..i + 1]) == if Kept(s[i]) then Filtered(s[..i]) + [s[i]] else Filtered(s[..i])
  {
    assert s[..i + 1][..i] == s[..i];
  }

  /** The three assignments for one kept byte (src/modules/bot_fun.c:60-71). */
  method Store(buf: array<byte>, ghost kept: seq<byte>, q: nat, b: byte)
    requires AllKept(kept) && Kept(b) && q == |kept| && 3 * q + 2 < buf.Length
    requires buf[..3 * q] == Encode(kept)
    modifies buf
    ensures buf[..3 * (q + 1)] == Encode(kept + [b])
  {
    EncodeSnoc(kept, b);
    var c := b as int;
    if c == 0x20 {
      buf[q * 3] := 0xE3;
      buf[q * 3 + 1] := 0x80;
      buf[q * 3 + 2] := 0x80;
    } else {
      var s := 0xBC60 + (if c >= 0x60 then c + 0xC0 else c);
      buf[q * 3] := 0xEF;
      buf[q * 3 + 1] := (s / 256 % 256) as byte;
      buf[q * 3 + 2] := (s % 256) as byte;
    }
  }

  // ---- what the bytes mean ---------------------------------------------------------------------

  lemma TripleDecodes(c: byte, rest: seq<byte>)
    requires Kept(c)
    ensures DecodeOne(Triple(c) + rest) == Some((Wide(c), 3))
    ensures forall k :: 0 <= k < 3 ==> Triple(c)[k] != 0
  {
    var s := 0xBC60 + c as int + (if c >= 0x60 then 0xC0 else 0);
    assert s / 256 == (if c >= 0x60 then 0xBD else 0xBC);
  }

  /** The output is well-formed UTF-8 and decodes to the full-width form of each kept byte, in order. */
  lemma {:induction false} EncodeDecodes(kept: seq<byte>)
    requires AllKept(kept)
    ensures DecodeUtf8(Encode(kept)) == Some(Widened(kept))
  {
    if kept != [] {
      var rest := Encode(kept[1..]);
      EncodeDecodes(kept[1..]);
      TripleDecodes(kept[0], rest);
      assert (Triple(kept[0]) + rest)[3..] == rest;
      assert Widened(kept) == [Wide(kept[0])] + Widened(kept[1..]);
    }
  }

  /** Which bytes are encoded: of the first 170, those from 0x20 to 0x7F, in order. */
  lemma {:induction false} KeptExactly(args: seq<byte>, c: byte)
    ensures Filtered([]) == []
    ensures Filtered(args + [c]) == Filtered(args) + (if 0x20 <= c <= 0x7F then [c] else [])
    ensures FirstBytes(args) <= args
    ensures |FirstBytes(args)| == if |args| <= 170 then |args| else 170
  {
    assert (args + [c])[..|args|] == args;
  }

  /** A printable text of at most 170 bytes comes out whole, each byte in its full-width form. */
  lemma PrintableText(args: seq<byte>)
    requires |args| <= 170 && forall k :: 0 <= k < |args| ==> 0x20 <= args[k] <= 0x7F
    ensures Filtered(FirstBytes(args)) == args
    ensures DecodeUtf8(Encode(args)) == Some(Widened(args)) && |Widened(args)| == |args|
    ensures forall k :: 0 <= k < |args| ==>
      Widened(args)[k] == if args[k] == 0x20 then 0x3000 else 0xFEE0 + args[k] as nat
  {
    AllFiltered(args);
    EncodeDecodes(args);
  }

  lemma {:induction false} AllFiltered(args: seq<byte>)
    requires forall k :: 0 <= k < |args| ==> 0x20 <= args[k] <= 0x7F
    ensures Filtered(args) == args
  {
    if args != [] {
      AllFiltered(args[..|args| - 1]);
      assert args == args[..|args| - 1] + [args[|args| - 1]];
    }
  }

  /** No byte of the output ends the C string early. */
  lemma {:induction false} EncodeHasNoNul(kept: seq<byte>)
    requires AllKept(kept)
    ensures 0 !in Encode(kept)
  {
    if kept != [] {
      EncodeHasNoNul(kept[1..]);
      TripleDecodes(kept[0], []);
    }
  }

  /** The full-width text determines what was kept: decoding recovers the filtered input. */
  lemma EncodeIsInjective(a: seq<byte>, b: seq<byte>)
    requires AllKept(a) && AllKept(b)
    ensures Encode(a) == Encode(b) <==> a == b
  {
    if Encode(a) == Encode(b) {
      EncodeDecodes(a);
      EncodeDecodes(b);
      assert |a| == |Widened(a)| == |Widened(b)| == |b|;
      forall k | 0 <= k < |a| ensures a[k] == b[k] {
        assert Widened(a)[k] == Widened(b)[k];
      }
    }
  }
}
