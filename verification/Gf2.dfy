/** Polynomials over GF(2), the reference arithmetic for the CRC.
    A polynomial is its list of coefficients, highest power first; leading zeros are kept,
    so the length of a list fixes the range of powers it covers. */
module Gf2 {

  type Poly = seq<bool>

  function Zeros(n: nat): (z: Poly)
    ensures |z| == n && forall i :: 0 <= i < n ==> !z[i]
  {
    seq(n, _ => false)
  }

  /** Addition of coefficients modulo 2. */
  function Add(a: Poly, b: Poly): (r: Poly)
    requires |a| == |b|
    ensures |r| == |a| && forall i :: 0 <= i < |a| ==> r[i] == (a[i] != b[i])
  {
    seq(|a|, i requires 0 <= i < |a| => a[i] != b[i])
  }

  function Scale(b: bool, p: Poly): (r: Poly)
    ensures |r| == |p|
  {
    if b then p else Zeros(|p|)
  }

  /** The coefficient number k of the product of the first n terms of q with p. */
  function Coefficient(q: Poly, p: Poly, k: nat, n: nat): bool
    requires n <= |q|
  {
    if n == 0 then false
    else Coefficient(q, p, k, n - 1) != (q[n - 1] && 0 <= k - (n - 1) < |p| && p[k - (n - 1)])
  }

  /** The product q * p. */
  function Mul(q: Poly, p: Poly): (r: Poly)
    requires |p| > 0
    ensures |r| == |q| + |p| - 1
    ensures forall k :: 0 <= k < |r| ==> r[k] == Coefficient(q, p, k, |q|)
  {
    seq(|q| + |p| - 1, k requires 0 <= k => Coefficient(q, p, k, |q|))
  }

  lemma {:induction false} CoefficientAdd(q1: Poly, q2: Poly, p: Poly, k: nat, n: nat)
    requires |q1| == |q2| && n <= |q1|
    ensures Coefficient(Add(q1, q2), p, k, n) == (Coefficient(q1, p, k, n) != Coefficient(q2, p, k, n))
  {
    if n > 0 { CoefficientAdd(q1, q2, p, k, n - 1); }
  }

  /** Only the terms of q up to a power not below k matter, and the last term adds b * p. */
  lemma {:induction false} CoefficientPrefix(q: Poly, b: bool, p: Poly, k: nat, n: nat)
    requires n <= |q|
    ensures Coefficient(q + [b], p, k, n) == Coefficient(q, p, k, n)
  {
    if n > 0 { CoefficientPrefix(q, b, p, k, n - 1); }
  }

  lemma {:induction false} CoefficientZero(q: Poly, p: Poly, k: nat, n: nat)
    requires n <= |q|
    requires forall j :: 0 <= j < n && j <= k ==> !q[j]
    ensures !Coefficient(q, p, k, n)
  {
    if n > 0 { CoefficientZero(q, p, k, n - 1); }
  }

  /** Multiplying by a polynomial with leading coefficient 1 keeps the leading term. */
  lemma {:induction false} MulLeading(q: Poly, p: Poly, i: nat, n: nat)
    requires |p| > 0 && p[0] && i < n <= |q|
    requires forall j :: 0 <= j < i ==> !q[j]
    ensures Coefficient(q, p, i, n) == q[i]
  {
    if n == i + 1 {
      CoefficientZero(q, p, i, i);
    } else {
      MulLeading(q, p, i, n - 1);
    }
  }

  lemma MulAdd(q1: Poly, q2: Poly, p: Poly)
    requires |q1| == |q2| && |p| > 0
    ensures Mul(Add(q1, q2), p) == Add(Mul(q1, p), Mul(q2, p))
  {
    forall k | 0 <= k < |q1| + |p| - 1
      ensures Mul(Add(q1, q2), p)[k] == Add(Mul(q1, p), Mul(q2, p))[k]
    {
      CoefficientAdd(q1, q2, p, k, |q1|);
    }
  }

  /** Horner's rule: one more term of q multiplies by x and adds b * p. */
  lemma MulSnoc(q: Poly, b: bool, p: Poly)
    requires |p| > 0
    ensures Mul(q + [b], p) == Add(Mul(q, p) + [false], Zeros(|q|) + Scale(b, p))
  {
    forall k | 0 <= k < |q| + |p|
      ensures Mul(q + [b], p)[k] == Add(Mul(q, p) + [false], Zeros(|q|) + Scale(b, p))[k]
    {
      CoefficientPrefix(q, b, p, k, |q|);
      if k == |q| + |p| - 1 { CoefficientBeyond(q, p, k, |q|); }
    }
  }

  lemma {:induction false} CoefficientBeyond(q: Poly, p: Poly, k: nat, n: nat)
    requires n <= |q| && k >= n + |p| - 1
    ensures !Coefficient(q, p, k, n)
  {
    if n > 0 { CoefficientBeyond(q, p, k, n - 1); }
  }

  /** q * p + r with the two halves of the sum named. */
  function Compose(q: Poly, p: Poly, r: Poly): Poly
    requires |p| == |r| + 1
  {
    Add(Mul(q, p), Zeros(|q|) + r)
  }

  lemma ComposeAdd(q1: Poly, r1: Poly, q2: Poly, r2: Poly, p: Poly)
    requires |q1| == |q2| && |p| == |r1| + 1 == |r2| + 1
    ensures Add(Compose(q1, p, r1), Compose(q2, p, r2)) == Compose(Add(q1, q2), p, Add(r1, r2))
  {
    MulAdd(q1, q2, p);
  }

  /** r is a remainder of a modulo p: a == q * p + r for some quotient q, with deg r < deg p. */
  ghost predicate IsRemainder(a: Poly, p: Poly, r: Poly) {
    && |p| > 0
    && |r| == |p| - 1 <= |a|
    && exists q: Poly :: |q| == |a| - |r| && a == Compose(q, p, r)
  }

  /** Only 0 * p + 0 is zero. */
  lemma ComposeZero(d: Poly, p: Poly, s: Poly)
    requires |p| == |s| + 1 && p[0]
    requires forall i :: 0 <= i < |d| + |s| ==> !Compose(d, p, s)[i]
    ensures forall i :: 0 <= i < |d| ==> !d[i]
    ensures forall i :: 0 <= i < |s| ==> !s[i]
  {
    for n := 0 to |d|
      invariant forall i :: 0 <= i < n ==> !d[i]
    {
      MulLeading(d, p, n, |d|);
      assert !Compose(d, p, s)[n];
    }
    forall i | 0 <= i < |s| ensures !s[i] {
      CoefficientZero(d, p, |d| + i, |d|);
      assert !Compose(d, p, s)[|d| + i];
    }
  }

  /** Division with remainder by p is unique, so "the" remainder is well defined. */
  lemma RemainderUnique(a: Poly, p: Poly, r1: Poly, r2: Poly)
    requires |p| > 0 && p[0]
    requires IsRemainder(a, p, r1) && IsRemainder(a, p, r2)
    ensures r1 == r2
  {
    var q1: Poly :| |q1| == |a| - |r1| && a == Compose(q1, p, r1);
    var q2: Poly :| |q2| == |a| - |r2| && a == Compose(q2, p, r2);
    ComposeAdd(q1, r1, q2, r2, p);
    ComposeZero(Add(q1, q2), p, Add(r1, r2));
    forall i | 0 <= i < |r1| ensures r1[i] == r2[i] {
      assert !Add(r1, r2)[i];
    }
  }

  // ---- division one bit at a time --------------------------------------------------------

  /** Multiply by x, keeping the length: the leading coefficient falls off. */
  function Left(r: Poly): (s: Poly)
    requires |r| > 0
    ensures |s| == |r|
  {
    r[1..] + [false]
  }

  /** Multiply by x modulo p. */
  function Shift(r: Poly, p: Poly): (s: Poly)
    requires 0 < |r| == |p| - 1
    ensures |s| == |r|
  {
    if r[0] then Add(Left(r), p[1..]) else Left(r)
  }

  function Shifts(r: Poly, p: Poly, n: nat): (s: Poly)
    requires 0 < |r| == |p| - 1
    ensures |s| == |r|
  {
    if n == 0 then r else Shift(Shifts(r, p, n - 1), p)
  }

  function Flip(r: Poly, b: bool): (s: Poly)
    requires 0 < |r|
    ensures |s| == |r|
  {
    r[0 := r[0] != b]
  }

  /** Take in one more coefficient of the dividend, then divide. */
  function Take(r: Poly, p: Poly, bits: Poly): (s: Poly)
    requires 0 < |r| == |p| - 1
    ensures |s| == |r|
  {
    if bits == [] then r else Shift(Flip(Take(r, p, bits[..|bits| - 1]), bits[|bits| - 1]), p)
  }

  lemma {:induction false} TakeAppend(r: Poly, p: Poly, a: Poly, b: Poly)
    requires 0 < |r| == |p| - 1
    ensures Take(r, p, a + b) == Take(Take(r, p, a), p, b)
  {
    if b == [] {
      assert a + b == a;
    } else {
      TakeAppend(r, p, a, b[..|b| - 1]);
      assert (a + b)[..|a + b| - 1] == a + b[..|b| - 1];
    }
  }

  /** x * t == t[0] * p + Shift(t, p). */
  lemma ShiftIsReduction(t: Poly, p: Poly)
    requires 0 < |t| == |p| - 1 && p[0]
    ensures t + [false] == Add(Scale(t[0], p), [false] + Shift(t, p))
  {
  }

  /** The invariant of bitwise division: bits * x^n == quotient * p + remainder, n the degree of p. */
  lemma {:induction false} Division(bits: Poly, p: Poly) returns (q: Poly)
    requires |p| > 1 && p[0]
    ensures |q| == |bits|
    ensures bits + Zeros(|p| - 1) == Compose(q, p, Take(Zeros(|p| - 1), p, bits))
  {
    var zero := Zeros(|p| - 1);
    if bits == [] {
      q := [];
      assert bits + zero == zero;
      assert Compose(q, p, zero) == zero;
    } else {
      var k := |bits| - 1;
      var q0 := Division(bits[..k], p);
      var r := Take(zero, p, bits[..k]);
      q := q0 + [Flip(r, bits[k])[0]];
      assert q[..k] == q0;
      DivisionStep(bits, q, r, p);
    }
  }

  lemma DivisionStep(bits: Poly, q: Poly, r: Poly, p: Poly)
    requires 0 < |r| == |p| - 1 && p[0]
    requires 0 < |bits| == |q|
    requires bits[..|bits| - 1] + Zeros(|r|) == Compose(q[..|bits| - 1], p, r)
    requires q[|bits| - 1] == Flip(r, bits[|bits| - 1])[0]
    ensures bits + Zeros(|r|) == Compose(q, p, Shift(Flip(r, bits[|bits| - 1]), p))
  {
    var k, n := |bits| - 1, |r|;
    var t := Flip(r, bits[k]);
    var low := Mul(q[..k], p) + [false];
    var high, rest := Zeros(k) + Scale(t[0], p), Zeros(k) + ([false] + Shift(t, p));
    assert Zeros(k + 1) + Shift(t, p) == rest;
    MulSnoc(q[..k], q[k], p);
    assert q == q[..k] + [q[k]];
    AddAssociative(low, high, rest);
    assert Add(high, rest) == Zeros(k) + (t + [false]) by {
      ShiftIsReduction(t, p);
      AddPadded(k, Scale(t[0], p), [false] + Shift(t, p));
    }
    TakenIn(bits, Mul(q[..k], p), r);
  }

  lemma TakenIn(bits: Poly, m: Poly, r: Poly)
    requires |bits| > 0 && |r| > 0 && |m| == |bits| - 1 + |r|
    requires bits[..|bits| - 1] + Zeros(|r|) == Add(m, Zeros(|bits| - 1) + r)
    ensures bits + Zeros(|r|) == Add(m + [false], Zeros(|bits| - 1) + (Flip(r, bits[|bits| - 1]) + [false]))
  {
    var k, n := |bits| - 1, |r|;
    var sum := Add(m + [false], Zeros(k) + (Flip(r, bits[k]) + [false]));
    forall i | 0 <= i < k + n + 1
      ensures sum[i] == (bits + Zeros(n))[i]
    {
      if i < k + n {
        assert (bits[..k] + Zeros(n))[i] == (m[i] != (Zeros(k) + r)[i]);
      }
    }
  }

  lemma AddAssociative(a: Poly, b: Poly, c: Poly)
    requires |a| == |b| == |c|
    ensures Add(Add(a, b), c) == Add(a, Add(b, c))
  {
  }

  lemma AddPadded(k: nat, a: Poly, b: Poly)
    requires |a| == |b|
    ensures Add(Zeros(k) + a, Zeros(k) + b) == Zeros(k) + Add(a, b)
  {
  }

  /** Reducing s + e at once is taking in the leading coefficient of e and keeping the rest. */
  lemma ShiftSplit(s: Poly, e: Poly, p: Poly)
    requires 0 < |s| == |e| == |p| - 1
    ensures Shift(Add(s, e), p) == Add(Shift(Flip(s, e[0]), p), Left(e))
  {
  }

  function Lefts(d: Poly, k: nat): (s: Poly)
    requires |d| > 0 && k <= |d|
    ensures |s| == |d|
    ensures forall i :: 0 <= i < |d| ==> s[i] == (i + k < |d| && d[i + k])
  {
    if k == 0 then d else Left(Lefts(d, k - 1))
  }

  lemma {:induction false} BlockPrefix(r: Poly, d: Poly, p: Poly, k: nat)
    requires 0 < |r| == |d| == |p| - 1 && k <= |d|
    ensures Shifts(Add(r, d), p, k) == Add(Take(r, p, d[..k]), Lefts(d, k))
  {
    if k > 0 {
      BlockPrefix(r, d, p, k - 1);
      ShiftSplit(Take(r, p, d[..k - 1]), Lefts(d, k - 1), p);
      assert d[..k][..k - 1] == d[..k - 1];
    }
  }

  /** The table trick: a whole block of n coefficients can be added first and divided afterwards. */
  lemma BlockAtOnce(r: Poly, d: Poly, p: Poly)
    requires 0 < |r| == |d| == |p| - 1
    ensures Shifts(Add(d, r), p, |d|) == Take(r, p, d)
  {
    assert Add(d, r) == Add(r, d);
    BlockPrefix(r, d, p, |d|);
    assert d[..|d|] == d;
    var t := Take(r, p, d);
    assert Add(t, Lefts(d, |d|)) == t;
  }

  // ---- algebra of one division step ------------------------------------------------------

  lemma ShiftLinear(a: Poly, b: Poly, p: Poly)
    requires 0 < |a| == |b| == |p| - 1
    ensures Shift(Add(a, b), p) == Add(Shift(a, p), Shift(b, p))
  {
  }

  lemma {:induction false} ShiftsLinear(a: Poly, b: Poly, p: Poly, n: nat)
    requires 0 < |a| == |b| == |p| - 1
    ensures Shifts(Add(a, b), p, n) == Add(Shifts(a, p, n), Shifts(b, p, n))
  {
    if n > 0 {
      ShiftsLinear(a, b, p, n - 1);
      ShiftLinear(Shifts(a, p, n - 1), Shifts(b, p, n - 1), p);
    }
  }

  /** Multiplication by x modulo p is injective when p has a constant term. */
  lemma ShiftInjective(a: Poly, b: Poly, p: Poly)
    requires 0 < |a| == |b| == |p| - 1 && p[|p| - 1]
    requires Shift(a, p) == Shift(b, p)
    ensures a == b
  {
    var n := |a|;
    assert p[1..][n - 1];
    assert Shift(a, p)[n - 1] == a[0];
    assert Shift(b, p)[n - 1] == b[0];
    forall i | 1 <= i < n ensures a[i] == b[i] {
      assert Left(a)[i - 1] == a[i] && Left(b)[i - 1] == b[i];
      assert Shift(a, p)[i - 1] == Shift(b, p)[i - 1];
    }
  }

  lemma {:induction false} ShiftsInjective(a: Poly, b: Poly, p: Poly, n: nat)
    requires 0 < |a| == |b| == |p| - 1 && p[|p| - 1]
    requires Shifts(a, p, n) == Shifts(b, p, n)
    ensures a == b
  {
    if n > 0 {
      ShiftInjective(Shifts(a, p, n - 1), Shifts(b, p, n - 1), p);
      ShiftsInjective(a, b, p, n - 1);
    }
  }

  lemma AddCancel(d: Poly, a: Poly, b: Poly)
    requires |d| == |a| == |b|
    ensures Add(d, a) == Add(d, b) <==> a == b
    ensures Add(d, a) == Add(a, d)
  {
    if Add(d, a) == Add(d, b) {
      forall i | 0 <= i < |a| ensures a[i] == b[i] {
        assert Add(d, a)[i] == Add(d, b)[i];
      }
    }
  }
}
