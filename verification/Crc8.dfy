/** The CRC-8 of in-band-interrupt payloads (src/i3c/hal_impl.rs), as polynomial division.
  *
  * A number stands for the polynomial over GF(2) whose coefficients are its bits, so `Xor` is
  * addition and doubling is multiplication by x. */
module Crc8 {
  import opened Bits
  import opened Bytes

  /** x^8 + x^2 + x + 1 */
  const GENERATOR: nat := 0x107

  // ---- addition of polynomials

  lemma {:induction false} XorComm(a: nat, b: nat)
    ensures Xor(a, b) == Xor(b, a)
    decreases a + b
  {
    if a + b > 0 { XorComm(a / 2, b / 2); }
  }

  lemma {:induction false} XorAssoc(a: nat, b: nat, c: nat)
    ensures Xor(Xor(a, b), c) == Xor(a, Xor(b, c))
    decreases a + b + c
  {
    if a + b + c > 0 {
      XorAssoc(a / 2, b / 2, c / 2);
      XorHalves(a, b);
      XorHalves(b, c);
    }
  }

  lemma XorHalves(a: nat, b: nat)
    ensures Xor(a, b) / 2 == Xor(a / 2, b / 2)
    ensures Xor(a, b) % 2 == if a % 2 == b % 2 then 0 else 1
  {
  }

  lemma {:induction false} XorZero(a: nat)
    ensures Xor(a, 0) == a && Xor(0, a) == a
  {
    if a > 0 { XorZero(a / 2); }
  }

  lemma {:induction false} XorSelf(a: nat)
    ensures Xor(a, a) == 0
  {
    if a > 0 { XorSelf(a / 2); }
  }

  lemma {:induction false} XorIsZero(a: nat, b: nat)
    requires Xor(a, b) == 0
    ensures a == b
    decreases a + b
  {
    if a + b > 0 {
      XorHalves(a, b);
      XorIsZero(a / 2, b / 2);
    }
  }

  lemma XorDouble(a: nat, b: nat)
    ensures Xor(2 * a, 2 * b) == 2 * Xor(a, b)
  {
    assert (2 * a) / 2 == a && (2 * b) / 2 == b && (2 * a) % 2 == 0 && (2 * b) % 2 == 0;
    if a == 0 && b == 0 { XorZero(0); }
  }

  /** Adding a number that fits below is adding its bits. */
  lemma {:induction false} XorDisjoint(a: nat, b: nat, k: nat)
    requires b < Pow2(k)
    ensures Xor(Shl(a, k), b) == Shl(a, k) + b
  {
    if k == 0 {
      XorZero(a);
    } else {
      var s := Shl(a, k - 1);
      XorDisjoint(a, b / 2, k - 1);
      XorHalves(2 * s, b);
      SameHalves(Xor(2 * s, b), 2 * s + b);
    }
  }

  /** A bit that both have cancels. */
  lemma {:induction false} XorCancels(a: nat, b: nat, k: nat)
    requires a < Pow2(k) && b < Pow2(k)
    ensures Xor(Pow2(k) + a, Pow2(k) + b) == Xor(a, b)
  {
    if k == 0 {
      XorSelf(Pow2(0));
      XorSelf(0);
    } else {
      var p := Pow2(k - 1);
      HalfSum(p, a);
      HalfSum(p, b);
      XorCancels(a / 2, b / 2, k - 1);
      XorHalves(2 * p + a, 2 * p + b);
      XorHalves(a, b);
      SameHalves(Xor(2 * p + a, 2 * p + b), Xor(a, b));
    }
  }

  lemma HalfSum(p: nat, a: nat)
    ensures (2 * p + a) / 2 == p + a / 2 && (2 * p + a) % 2 == a % 2
  {
  }

  lemma SameHalves(a: nat, b: nat)
    requires a / 2 == b / 2 && a % 2 == b % 2
    ensures a == b
  {
  }

  lemma {:induction false} XorKeepsHigh(a: nat, b: nat, k: nat)
    requires a >= Pow2(k) && b < Pow2(k)
    ensures Xor(a, b) >= Pow2(k)
  {
    if k > 0 {
      XorKeepsHigh(a / 2, b / 2, k - 1);
      XorHalves(a, b);
    } else {
      XorZero(a);
    }
  }

  // ---- multiples of the generator

  function Times(q: nat): nat {
    if q == 0 then 0 else Xor(2 * Times(q / 2), if q % 2 == 1 then GENERATOR else 0)
  }

  lemma TimesDouble(q: nat)
    ensures Times(2 * q) == 2 * Times(q)
  {
    XorZero(2 * Times(q));
  }

  lemma {:induction false} TimesXor(a: nat, b: nat)
    ensures Times(Xor(a, b)) == Xor(Times(a), Times(b))
    decreases a + b
  {
    if a + b > 0 {
      TimesXor(a / 2, b / 2);
      XorHalves(a, b);
      TimesUnfolds(a);
      TimesUnfolds(b);
      TimesUnfolds(Xor(a, b));
      var (p, q) := (Times(a / 2), Times(b / 2));
      XorDouble(p, q);
      Interchange(2 * p, Odd(a), 2 * q, Odd(b));
      XorZero(GENERATOR);
      XorZero(0);
      XorSelf(GENERATOR);
    } else {
      XorZero(0);
    }
  }

  function Odd(a: nat): nat { if a % 2 == 1 then GENERATOR else 0 }

  lemma TimesUnfolds(a: nat)
    ensures Times(a) == Xor(2 * Times(a / 2), Odd(a))
  {
    if a == 0 { XorZero(0); }
  }

  lemma Interchange(a: nat, b: nat, c: nat, d: nat)
    ensures Xor(Xor(a, b), Xor(c, d)) == Xor(Xor(a, c), Xor(b, d))
  {
    XorAssoc(a, b, Xor(c, d));
    XorAssoc(b, c, d);
    XorComm(b, c);
    XorAssoc(c, b, d);
    XorAssoc(a, c, Xor(b, d));
  }

  /** No multiple but 0 has degree below 8. */
  lemma {:induction false} TimesIsLarge(q: nat)
    requires q > 0
    ensures Times(q) >= 256
  {
    TimesUnfolds(q);
    Pow2Values();
    if q / 2 > 0 {
      TimesIsLarge(q / 2);
      assert Pow2(9) == 512;
      XorKeepsHigh(2 * Times(q / 2), Odd(q), 9);
    } else {
      XorZero(Odd(q));
    }
  }

  // ---- remainders

  /** r is the remainder of p modulo the generator. */
  ghost predicate IsRemainder(p: nat, r: nat) {
    r < 256 && exists q: nat :: p == Xor(Times(q), r)
  }

  /** There is only one. */
  lemma RemainderUnique(p: nat, r: nat, s: nat)
    requires IsRemainder(p, r) && IsRemainder(p, s)
    ensures r == s
  {
    var a: nat :| p == Xor(Times(a), r);
    var b: nat :| p == Xor(Times(b), s);
    XorSelf(p);
    Interchange(Times(a), r, Times(b), s);
    TimesXor(a, b);
    XorIsZero(Times(Xor(a, b)), Xor(r, s));
    Pow2Values();
    XorBound(r, s, 8);
    if Xor(a, b) > 0 {
      TimesIsLarge(Xor(a, b));
    }
    XorIsZero(r, s);
  }

  // ---- the computation

  /** One shift of the register. */
  function Shift(x: byte): (y: byte)
  {
    var low := 2 * x % 256;
    SmallXor(low, 7);
    if x >= 0x80 then Xor(low, 0x07) else low
  }

  lemma SmallXor(a: byte, b: byte)
    ensures Xor(a, b) < 256
  {
    Pow2Values();
    XorBound(a, b, 8);
  }

  function Shifts(x: byte, k: nat): byte {
    if k == 0 then x else Shift(Shifts(x, k - 1))
  }

  function Crc(c: byte, data: seq<byte>): (r: byte)
  {
    if data == [] then c
    else
      SmallXor(Crc(c, data[..|data| - 1]), data[|data| - 1]);
      Shifts(Xor(Crc(c, data[..|data| - 1]), data[|data| - 1]), 8)
  }

  function Carry(x: byte): nat { if x >= 0x80 then 1 else 0 }

  /** A shift multiplies by x, up to a multiple of the generator. */
  lemma ShiftIs(x: byte)
    ensures 2 * x == Xor(Times(Carry(x)), Shift(x))
  {
    if x >= 0x80 {
      HighShift(x);
    } else {
      LowShift(x);
    }
  }

  lemma LowShift(x: byte)
    requires x < 0x80
    ensures 2 * x == Xor(Times(0), Shift(x))
  {
    ShiftKeeps(x);
    XorZero(Shift(x));
  }

  lemma ShiftKeeps(x: byte)
    requires x < 0x80
    ensures Shift(x) == 2 * x
  {
  }

  lemma TimesOne()
    ensures Times(0) == 0 && Times(1) == GENERATOR
  {
    XorZero(GENERATOR);
  }

  lemma HighShift(x: byte)
    requires x >= 0x80
    ensures 2 * x == Xor(Times(1), Shift(x))
  {
    ShiftDrops(x);
    Undo(2 * x, Times(1));
  }

  lemma ShiftDrops(x: byte)
    requires x >= 0x80
    ensures Shift(x) == Xor(2 * x, Times(1))
  {
    TimesOne();
    TopCancels(2 * x - 256, 7);
    assert 2 * x % 256 == 2 * x - 256;
  }

  lemma TopCancels(y: byte, g: byte)
    ensures Xor(256 + y, 256 + g) == Xor(y, g)
  {
    Pow2Values();
    XorCancels(y, g, 8);
  }

  lemma Undo(a: nat, b: nat)
    ensures a == Xor(b, Xor(a, b))
  {
    XorComm(a, b);
    XorAssoc(b, b, a);
    XorSelf(b);
    XorZero(a);
  }

  lemma {:induction false} ShiftsAre(x: byte, k: nat) returns (q: nat)
    ensures Shl(x, k) == Xor(Times(q), Shifts(x, k))
  {
    if k == 0 {
      q := 0;
      XorZero(x);
    } else {
      var q0 := ShiftsAre(x, k - 1);
      q := NextShift(Shl(x, k - 1), q0, Shifts(x, k - 1));
    }
  }

  lemma NextShift(p: nat, q0: nat, s: byte) returns (q: nat)
    requires p == Xor(Times(q0), s)
    ensures 2 * p == Xor(Times(q), Shift(s))
  {
    var bit := Carry(s);
    XorDouble(Times(q0), s);
    TimesDouble(q0);
    ShiftIs(s);
    XorAssoc(Times(2 * q0), Times(bit), Shift(s));
    TimesXor(2 * q0, bit);
    q := Xor(2 * q0, bit);
  }

  lemma {:induction false} TimesShifted(q: nat, k: nat)
    ensures Times(Shl(q, k)) == Shl(Times(q), k)
  {
    if k > 0 {
      TimesShifted(q, k - 1);
      TimesDouble(Shl(q, k - 1));
    }
  }

  lemma {:induction false} XorShifted(a: nat, b: nat, k: nat)
    ensures Xor(Shl(a, k), Shl(b, k)) == Shl(Xor(a, b), k)
  {
    if k > 0 {
      XorShifted(a, b, k - 1);
      XorDouble(Shl(a, k - 1), Shl(b, k - 1));
    }
  }

  /** For data of any length the CRC is the remainder of data(x) * x^8. */
  lemma {:induction false} CrcIsRemainder(data: seq<byte>)
    ensures IsRemainder(FromBE(data) * 256, Crc(0, data))
  {
    if data == [] {
      XorZero(0);
      assert 0 == Xor(Times(0), 0);
    } else {
      var init, b := data[..|data| - 1], data[|data| - 1];
      CrcIsRemainder(init);
      var q: nat :| FromBE(init) * 256 == Xor(Times(q), Crc(0, init));
      var q1 := NextByte(FromBE(init), q, Crc(0, init), b);
      assert FromBE(data) * 256 == Xor(Times(q1), Crc(0, data));
    }
  }

  /** One more byte of the dividend. */
  lemma NextByte(n: nat, q: nat, r: byte, b: byte) returns (q1: nat)
    requires n * 256 == Xor(Times(q), r)
    ensures Xor(r, b) < 256
    ensures (n * 256 + b) * 256 == Xor(Times(q1), Shifts(Xor(r, b), 8))
  {
    Pow2Values();
    SmallXor(r, b);
    ShlIsMul(n, 8);
    XorDisjoint(n, b, 8);
    XorAssoc(Times(q), r, b);
    q1 := ShiftedRemainder(n * 256 + b, q, Xor(r, b));
  }

  lemma ShiftedRemainder(p: nat, q: nat, x: byte) returns (q1: nat)
    requires p == Xor(Times(q), x)
    ensures p * 256 == Xor(Times(q1), Shifts(x, 8))
  {
    Pow2Values();
    ShlIsMul(p, 8);
    XorShifted(Times(q), x, 8);
    TimesShifted(q, 8);
    var q2 := ShiftsAre(x, 8);
    XorAssoc(Times(Shl(q, 8)), Times(q2), Shifts(x, 8));
    TimesXor(Shl(q, 8), q2);
    q1 := Xor(Shl(q, 8), q2);
  }

  /** Feeding the data in two pieces gives the CRC of the whole. */
  lemma {:induction false} CrcPiecewise(c: byte, a: seq<byte>, b: seq<byte>)
    ensures Crc(Crc(c, a), b) == Crc(c, a + b)
    decreases |b|
  {
    if b == [] {
      assert a + b == a;
    } else {
      CrcPiecewise(c, a, b[..|b| - 1]);
      assert (a + b)[..|a + b| - 1] == a + b[..|b| - 1];
    }
  }

  /** The payload check byte: the remainder for the address byte followed by the data byte. */
  lemma PayloadCheck(addrRnw: byte, mdb: byte, r: nat)
    ensures IsRemainder(FromBE([addrRnw, mdb]) * 256, r) <==> r == Crc(Crc(0, [addrRnw]), [mdb])
  {
    CrcPiecewise(0, [addrRnw], [mdb]);
    assert [addrRnw] + [mdb] == [addrRnw, mdb];
    CrcIsRemainder([addrRnw, mdb]);
    if IsRemainder(FromBE([addrRnw, mdb]) * 256, r) {
      RemainderUnique(FromBE([addrRnw, mdb]) * 256, r, Crc(0, [addrRnw, mdb]));
    }
  }

  method Crc8Ccitt(crc0: byte, data: seq<byte>) returns (crc: byte)
    ensures crc == Crc(crc0, data)
  {
    crc := crc0;
    for i := 0 to |data|
      invariant crc == Crc(crc0, data[..i])
    {
      assert data[..i + 1][..i] == data[..i];
      SmallXor(crc, data[i]);
      var x: byte := Xor(crc, data[i]);
      ghost var x0 := x;
      for k := 0 to 8
        invariant x == Shifts(x0, k)
      {
        SmallXor(2 * x % 256, 0x07);
        x := if x >= 0x80 then Xor(2 * x % 256, 0x07) else 2 * x % 256;
      }
      crc := x;
    }
    assert data[..|data|] == data;
  }
}
