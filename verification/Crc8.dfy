/** The CRC-8 that picks a hash bucket (src/hashmap.c:8-54).
    Functions say what the table and the checksum are; class Crc8Table computes them the way
    the program does, with a table filled on first use; the lemmas say what the checksum means. */
module Crc8 {
  import opened Gf2

  /** An unsigned char as its eight bits, most significant first: ^ is Add, << 1 is Left. */
  type Byte = b: Poly | |b| == 8 witness Zeros(8)

  type Bytes = seq<Byte>

  function Zero(): Byte { Zeros(8) }

  /** 0x9b. */
  function Polynomial(): Byte { [true, false, false, true, true, false, true, true] }

  /** x^8 + x^7 + x^4 + x^3 + x + 1: the same with its leading term. */
  function Generator(): (p: Poly)
    ensures |p| == 9 && p[0] && p[8] && p[1..] == Polynomial()
  {
    [true] + Polynomial()
  }

  /** The number that a list of bits denotes. */
  function Value(bits: Poly): (n: nat)
    ensures n < Power2(|bits|)
  {
    if bits == [] then 0 else 2 * Value(bits[..|bits| - 1]) + (if bits[|bits| - 1] then 1 else 0)
  }

  function Power2(n: nat): nat {
    if n == 0 then 1 else 2 * Power2(n - 1)
  }

  /** The lowest width bits of a number. */
  function OfInt(n: nat, width: nat): (bits: Poly)
    ensures |bits| == width
  {
    if width == 0 then [] else OfInt(n / 2, width - 1) + [n % 2 == 1]
  }

  function ByteOf(n: nat): Byte { OfInt(n, 8) }

  lemma {:induction false} OfIntValue(bits: Poly)
    ensures OfInt(Value(bits), |bits|) == bits
  {
    if bits != [] {
      OfIntValue(bits[..|bits| - 1]);
    }
  }

  lemma {:induction false} OfIntInjective(a: nat, b: nat, width: nat)
    requires a < Power2(width) && b < Power2(width) && OfInt(a, width) == OfInt(b, width)
    ensures a == b
  {
    if width > 0 {
      assert OfInt(a, width)[..width - 1] == OfInt(a / 2, width - 1);
      assert OfInt(b, width)[..width - 1] == OfInt(b / 2, width - 1);
      assert OfInt(a, width)[width - 1] == OfInt(b, width)[width - 1];
      OfIntInjective(a / 2, b / 2, width - 1);
    }
  }

  lemma ValueInjective(x: Poly, y: Poly)
    requires |x| == |y| && Value(x) == Value(y)
    ensures x == y
  {
    OfIntValue(x);
    OfIntValue(y);
  }

  lemma Power2Of8()
    ensures Power2(8) == 256
  {
    assert Power2(4) == 16;
  }

  /** The table entry for a byte: its remainder after eight more places. */
  function Entry(d: Byte): Byte { Shifts(d, Generator(), 8) }

  /** The checksum of a byte string. */
  function Crc(m: Bytes): Byte {
    if m == [] then Zero() else Entry(Add(m[|m| - 1], Crc(m[..|m| - 1])))
  }

  /** The program's lazily built table and the two functions that use it. */
  class Crc8Table {
    const table8: array<Byte>
    var hinit: bool

    ghost predicate Valid()
      reads this, table8
    {
      && table8.Length == 256
      && (hinit ==> forall k: nat :: k < 256 ==> table8[k] == Entry(ByteOf(k)))
    }

    constructor ()
      ensures Valid() && fresh(table8) && !hinit
    {
      table8 := new Byte[256](_ => Zero());
      hinit := false;
    }

    /** The inner loop of crc8_init: modulo-2 division, a bit at a time. */
    static method Divide(dividend: nat) returns (remainder: Byte)
      ensures remainder == Entry(ByteOf(dividend))
    {
      remainder := ByteOf(dividend);
      var bit := 8;
      while bit > 0
        invariant 0 <= bit <= 8
        invariant remainder == Shifts(ByteOf(dividend), Generator(), 8 - bit)
      {
        if remainder[0] {
          remainder := Add(Left(remainder), Polynomial());
        } else {
          remainder := Left(remainder);
        }
        bit := bit - 1;
      }
    }

    /** crc8_init. */
    method Init()
      requires Valid()
      modifies this, table8
      ensures Valid() && hinit
    {
      hinit := true;
      for dividend := 0 to 256
        invariant hinit
        invariant forall k: nat :: k < dividend ==> table8[k] == Entry(ByteOf(k))
      {
        var remainder := Divide(dividend);
        table8[dividend] := remainder;
      }
    }

    /** crc8_block; once the table is filled it changes nothing. */
    method Block(bytes: Bytes) returns (crc: Byte)
      requires Valid()
      modifies if hinit then {} else {this, table8}
      ensures Valid() && hinit
      ensures crc == Crc(bytes)
    {
      if !hinit { Init(); }
      var remainder: Byte := Zero();
      for rpos := 0 to |bytes|
        invariant Valid() && hinit
        invariant remainder == Crc(bytes[..rpos])
      {
        var data: Byte := Add(bytes[rpos], remainder);
        Power2Of8();
        OfIntValue(data);
        var entry := table8[Value(data)];
        assert bytes[..rpos + 1][..rpos] == bytes[..rpos];
        // remainder << 8, truncated to a byte, leaves nothing of the old remainder
        remainder := Add(entry, Zero());
        assert remainder == entry;
      }
      assert bytes[..|bytes|] == bytes;
      crc := remainder;
    }
  }

  // ---- the checksum as a remainder -----------------------------------------------------

  /** The message polynomial M(x). */
  function Message(m: Bytes): (p: Poly)
    ensures |p| == 8 * |m|
  {
    if m == [] then [] else Message(m[..|m| - 1]) + m[|m| - 1]
  }

  /** Reading whole bytes through the table is dividing bit by bit. */
  lemma {:induction false} CrcIsBitwise(m: Bytes)
    ensures Crc(m) == Take(Zero(), Generator(), Message(m))
  {
    if m != [] {
      var k := |m| - 1;
      CrcIsBitwise(m[..k]);
      BlockAtOnce(Crc(m[..k]), m[k], Generator());
      TakeAppend(Zero(), Generator(), Message(m[..k]), m[k]);
    }
  }

  /** crc8_block computes M(x) * x^8 modulo the generator, for every message. */
  lemma CrcIsRemainder(m: Bytes, r: Poly)
    ensures IsRemainder(Message(m) + Zeros(8), Generator(), r) <==> r == Crc(m)
  {
    var q := Division(Message(m), Generator());
    CrcIsBitwise(m);
    if IsRemainder(Message(m) + Zeros(8), Generator(), r) {
      RemainderUnique(Message(m) + Zeros(8), Generator(), r, Crc(m));
    }
  }

  // ---- consequences ---------------------------------------------------------------------

  function Xor(a: Bytes, b: Bytes): (c: Bytes)
    requires |a| == |b|
    ensures |c| == |a|
  {
    seq(|a|, i requires 0 <= i < |a| => Add(a[i], b[i]))
  }

  /** The checksum is linear: equal-length messages may be combined before or after it. */
  lemma {:induction false} CrcLinear(a: Bytes, b: Bytes)
    requires |a| == |b|
    ensures Crc(Xor(a, b)) == Add(Crc(a), Crc(b))
  {
    if a == [] {
      assert Add(Zero(), Zero()) == Zero();
    } else {
      var k := |a| - 1;
      var ca, cb := Crc(a[..k]), Crc(b[..k]);
      CrcLinear(a[..k], b[..k]);
      assert Xor(a, b)[..k] == Xor(a[..k], b[..k]);
      AddSwap(a[k], b[k], ca, cb);
      ShiftsLinear(Add(a[k], ca), Add(b[k], cb), Generator(), 8);
    }
  }

  lemma AddSwap(a: Poly, b: Poly, c: Poly, d: Poly)
    requires |a| == |b| == |c| == |d|
    ensures Add(Add(a, b), Add(c, d)) == Add(Add(a, c), Add(b, d))
  {
  }

  lemma {:induction false} ShiftsZero(n: nat)
    ensures Shifts(Zero(), Generator(), n) == Zero()
  {
    if n > 0 { ShiftsZero(n - 1); }
  }

  /** No two table entries agree: table8 is a permutation of the bytes. */
  lemma EntryInjective(a: Byte, b: Byte)
    ensures Entry(a) == Entry(b) <==> a == b
  {
    if Entry(a) == Entry(b) {
      ShiftsInjective(a, b, Generator(), 8);
    }
  }

  lemma CrcSnoc(m: Bytes, d: Byte)
    ensures Crc(m + [d]) == Entry(Add(d, Crc(m)))
  {
    assert (m + [d])[..|m|] == m;
  }

  /** Appending the checksum byte makes the remainder vanish, and no other byte does. */
  lemma CrcOfSealed(m: Bytes, c: Byte)
    ensures Crc(m + [c]) == Zero() <==> c == Crc(m)
  {
    CrcSnoc(m, c);
    ShiftsZero(8);
    EntryInjective(Add(c, Crc(m)), Zero());
    AddCancel(c, Crc(m), c);
    assert Add(c, c) == Zero();
  }

  /** A common suffix acts injectively on the checksum so far. */
  lemma {:induction false} SuffixInjective(a: Bytes, b: Bytes, suffix: Bytes)
    ensures Crc(a + suffix) == Crc(b + suffix) <==> Crc(a) == Crc(b)
  {
    if suffix == [] {
      assert a + suffix == a && b + suffix == b;
    } else {
      var k := |suffix| - 1;
      var d := suffix[k];
      assert a + suffix == (a + suffix[..k]) + [d];
      assert b + suffix == (b + suffix[..k]) + [d];
      calc <==> {
        Crc(a + suffix) == Crc(b + suffix);
        Crc((a + suffix[..k]) + [d]) == Crc((b + suffix[..k]) + [d]);
        { SameLast(a + suffix[..k], b + suffix[..k], d); }
        Crc(a + suffix[..k]) == Crc(b + suffix[..k]);
        { SuffixInjective(a, b, suffix[..k]); }
        Crc(a) == Crc(b);
      }
    }
  }

  lemma SameLast(a: Bytes, b: Bytes, d: Byte)
    ensures Crc(a + [d]) == Crc(b + [d]) <==> Crc(a) == Crc(b)
  {
    CrcSnoc(a, d);
    CrcSnoc(b, d);
    EntryInjective(Add(d, Crc(a)), Add(d, Crc(b)));
    AddCancel(d, Crc(a), Crc(b));
  }

  /** Messages of equal length that differ in at most one byte share a checksum only if they are equal. */
  lemma OneByteDifference(prefix: Bytes, x: Byte, y: Byte, suffix: Bytes)
    ensures Crc(prefix + [x] + suffix) == Crc(prefix + [y] + suffix) <==> x == y
  {
    var c := Crc(prefix);
    SuffixInjective(prefix + [x], prefix + [y], suffix);
    CrcSnoc(prefix, x);
    CrcSnoc(prefix, y);
    EntryInjective(Add(x, c), Add(y, c));
    AddCancel(c, x, y);
    AddCancel(x, c, c);
    AddCancel(y, c, c);
  }

  // ---- a known value -----------------------------------------------------------------------

  function Bit(k: nat): (b: Byte)
    requires k < 8
  {
    Zeros(8)[k := true]
  }

  lemma {:induction false} OneShifted(n: nat)
    requires n < 8
    ensures Shifts(Bit(7), Generator(), n) == Bit(7 - n)
  {
    if n > 0 {
      OneShifted(n - 1);
      assert Left(Bit(8 - n)) == Bit(7 - n);
    }
  }

  lemma BitsOfOne()
    ensures ByteOf(1) == Bit(7)
  {
    assert OfInt(0, 4) == Zeros(4);
    assert OfInt(0, 7) == Zeros(7);
  }

  /** The checksum of the single byte 1 is 0x9b, the polynomial of the program. */
  lemma CrcOfOne()
    ensures Value(Crc([ByteOf(1)])) == 0x9b
  {
    BitsOfOne();
    assert Add(Bit(7), Zero()) == Bit(7);
    assert [Bit(7)][..0] == [];
    OneShifted(7);
    assert Left(Bit(0)) == Zeros(8);
    assert Crc([Bit(7)]) == Polynomial();
    PolynomialValue();
  }

  lemma PolynomialValue()
    ensures Value(Polynomial()) == 0x9b
  {
    var p := Polynomial();
    assert p[..2][..1] == p[..1] && p[..3][..2] == p[..2] && p[..4][..3] == p[..3];
    assert p[..5][..4] == p[..4] && p[..6][..5] == p[..5] && p[..7][..6] == p[..6];
    assert p[..1][..0] == [];
    assert Value(p[..1]) == 1;
    assert Value(p[..2]) == 2;
    assert Value(p[..3]) == 4;
    assert Value(p[..4]) == 9;
    assert Value(p[..5]) == 19;
    assert Value(p[..6]) == 38;
    assert Value(p[..7]) == 77;
  }
}
