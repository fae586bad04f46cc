/** Bitwise operators on naturals, defined digit by digit.
  *
  * The drivers mix word arithmetic with `|`, `&` and `^`.  Defining these
  * operators on `nat` keeps both in one theory: `OrDisjoint` and `AndMask` are the
  * only two bridges the rest of the project needs.
  */
module Bits {

  /** 2 to the power n. */
  function Pow2(n: nat): (r: nat)
    ensures r > 0
  {
    if n == 0 then 1 else 2 * Pow2(n - 1)
  }

  /** Bit i of x. */
  predicate Bit(x: nat, i: nat) {
    if i == 0 then x % 2 == 1 else Bit(x / 2, i - 1)
  }

  function Digit(b: bool): nat { if b then 1 else 0 }

  function Or(a: nat, b: nat): nat
    decreases a + b
  {
    if a == 0 && b == 0 then 0
    else Digit(a % 2 == 1 || b % 2 == 1) + 2 * Or(a / 2, b / 2)
  }

  function And(a: nat, b: nat): nat
    decreases a + b
  {
    if a == 0 && b == 0 then 0
    else Digit(a % 2 == 1 && b % 2 == 1) + 2 * And(a / 2, b / 2)
  }

  function Xor(a: nat, b: nat): nat
    decreases a + b
  {
    if a == 0 && b == 0 then 0
    else Digit(a % 2 != b % 2) + 2 * Xor(a / 2, b / 2)
  }

  /** x << n */
  function Shl(x: nat, n: nat): nat {
    if n == 0 then x else 2 * Shl(x, n - 1)
  }

  /** x >> n */
  function Shr(x: nat, n: nat): nat {
    if n == 0 then x else Shr(x / 2, n - 1)
  }

  /** w ones above l zeros. */
  function Ones(w: nat, l: nat): nat {
    if l == 0 then Pow2(w) - 1 else 2 * Ones(w, l - 1)
  }

  /** The complement of x within w bits. */
  function Not(x: nat, w: nat): nat
    requires x < Pow2(w)
  {
    Pow2(w) - 1 - x
  }

  lemma {:induction false} Pow2Add(m: nat, n: nat)
    ensures Pow2(m + n) == Pow2(m) * Pow2(n)
  {
    if m > 0 {
      Pow2Add(m - 1, n);
      assert Pow2(m + n) == 2 * Pow2(m - 1 + n);
    }
  }

  lemma {:induction false} Pow2Mono(m: nat, n: nat)
    requires m <= n
    ensures Pow2(m) <= Pow2(n)
    decreases n - m
  {
    if m < n { Pow2Mono(m, n - 1); }
  }

  /** The powers the register layouts use. */
  lemma Pow2Values()
    ensures Pow2(0) == 1 && Pow2(1) == 2 && Pow2(2) == 4 && Pow2(3) == 8 && Pow2(4) == 16
    ensures Pow2(5) == 32 && Pow2(6) == 64 && Pow2(7) == 128 && Pow2(8) == 256
    ensures Pow2(16) == 0x1_0000 && Pow2(24) == 0x100_0000
    ensures Pow2(31) == 0x8000_0000 && Pow2(32) == 0x1_0000_0000
  {
    assert Pow2(4) == 16;
    assert Pow2(8) == 256 by { Pow2Add(4, 4); }
    assert Pow2(16) == 0x1_0000 by { Pow2Add(8, 8); }
    assert Pow2(24) == 0x100_0000 by { Pow2Add(16, 8); }
    assert Pow2(32) == 0x1_0000_0000 by { Pow2Add(16, 16); }
  }

  lemma {:induction false} BitOr(a: nat, b: nat, i: nat)
    ensures Bit(Or(a, b), i) == (Bit(a, i) || Bit(b, i))
  {
    if i > 0 { BitOr(a / 2, b / 2, i - 1); }
  }

  lemma {:induction false} BitAnd(a: nat, b: nat, i: nat)
    ensures Bit(And(a, b), i) == (Bit(a, i) && Bit(b, i))
  {
    if i > 0 { BitAnd(a / 2, b / 2, i - 1); }
  }

  lemma {:induction false} BitXor(a: nat, b: nat, i: nat)
    ensures Bit(Xor(a, b), i) == (Bit(a, i) != Bit(b, i))
  {
    if i > 0 { BitXor(a / 2, b / 2, i - 1); }
  }

  lemma {:induction false} BitPow2(n: nat, i: nat)
    ensures Bit(Pow2(n), i) == (n == i)
  {
    if i > 0 {
      if n > 0 {
        BitPow2(n - 1, i - 1);
      } else {
        BitZero(i - 1);
      }
    }
  }

  lemma {:induction false} BitZero(i: nat)
    ensures !Bit(0, i)
  {
    if i > 0 { BitZero(i - 1); }
  }

  lemma {:induction false} BitNot(x: nat, w: nat, i: nat)
    requires x < Pow2(w) && i < w
    ensures Bit(Not(x, w), i) == !Bit(x, i)
  {
    if i > 0 {
      assert Not(x, w) / 2 == Not(x / 2, w - 1);
      BitNot(x / 2, w - 1, i - 1);
    }
  }

  /** Two words of w bits with the same bits are the same word. */
  lemma {:induction false} BitsExtensional(a: nat, b: nat, w: nat)
    requires a < Pow2(w) && b < Pow2(w)
    requires forall i: nat | i < w :: Bit(a, i) == Bit(b, i)
    ensures a == b
  {
    if w > 0 {
      assert Bit(a, 0) == Bit(b, 0);
      forall i: nat | i < w - 1
        ensures Bit(a / 2, i) == Bit(b / 2, i)
      {
        assert Bit(a, i + 1) == Bit(b, i + 1);
      }
      BitsExtensional(a / 2, b / 2, w - 1);
    }
  }

  lemma {:induction false} OrBound(a: nat, b: nat, w: nat)
    requires a < Pow2(w) && b < Pow2(w)
    ensures Or(a, b) < Pow2(w)
  {
    if w > 0 { OrBound(a / 2, b / 2, w - 1); }
  }

  lemma {:induction false} AndBound(a: nat, b: nat, w: nat)
    requires a < Pow2(w)
    ensures And(a, b) < Pow2(w)
    decreases w
  {
    if w == 0 { AndZero(b); } else { AndBound(a / 2, b / 2, w - 1); }
  }

  lemma {:induction false} AndZero(b: nat)
    ensures And(0, b) == 0
  {
    if b > 0 { AndZero(b / 2); }
  }

  lemma {:induction false} XorBound(a: nat, b: nat, w: nat)
    requires a < Pow2(w) && b < Pow2(w)
    ensures Xor(a, b) < Pow2(w)
  {
    if w > 0 { XorBound(a / 2, b / 2, w - 1); }
  }

  lemma {:induction false} OrZero(a: nat)
    ensures Or(a, 0) == a && Or(0, a) == a
  {
    if a > 0 { OrZero(a / 2); }
  }

  /** `|` of two fields that share no bit is their sum. */
  lemma {:induction false} OrDisjoint(a: nat, b: nat, k: nat)
    requires a % Pow2(k) == 0 && b < Pow2(k)
    ensures Or(a, b) == a + b && Or(b, a) == a + b
  {
    if k == 0 {
      OrZero(a);
    } else {
      var p := Pow2(k - 1);
      var q := a / Pow2(k);
      assert a == 2 * (p * q);
      assert a / 2 == p * q;
      assert (a / 2) % p == 0 by { ModMultiple(q, p); }
      OrDisjoint(a / 2, b / 2, k - 1);
    }
  }

  lemma ModMultiple(q: nat, p: nat)
    requires p > 0
    ensures (p * q) % p == 0
  {
    DivModUnique(p * q, p, q, 0);
  }

  /** `& (2^k - 1)` is the remainder modulo 2^k. */
  lemma {:induction false} AndMask(a: nat, k: nat)
    ensures And(a, Pow2(k) - 1) == a % Pow2(k)
    decreases k, a
  {
    if k == 0 {
      AndComm(a, 0);
      AndZero(a);
    } else {
      var p: nat := Pow2(k - 1);
      AndMask(a / 2, k - 1);
      MaskStep(a, p, Pow2(k));
    }
  }

  lemma MaskStep(a: nat, p: nat, m: nat)
    requires p > 0 && m == 2 * p && And(a / 2, p - 1) == a / 2 % p
    ensures And(a, m - 1) == a % m
  {
    assert m - 1 == 2 * (p - 1) + 1;
    AndOdd(a, p - 1);
    ModSplit(a, p, m);
  }

  lemma AndOdd(a: nat, b: nat)
    ensures And(a, 2 * b + 1) == a % 2 + 2 * And(a / 2, b)
  {
    assert (2 * b + 1) / 2 == b && (2 * b + 1) % 2 == 1;
  }

  lemma {:induction false} AndComm(a: nat, b: nat)
    ensures And(a, b) == And(b, a)
    decreases a + b
  {
    if a + b > 0 { AndComm(a / 2, b / 2); }
  }

  /** The low digit splits off a remainder. */
  lemma ModSplit(a: nat, p: nat, m: nat)
    requires p > 0 && m == 2 * p
    ensures a % m == a % 2 + 2 * (a / 2 % p)
  {
    var h := a / 2;
    var q, r := h / p, a % 2 + 2 * (h % p);
    assert h == p * q + h % p;
    assert a == m * q + r by {
      assert m * q == 2 * (p * q);
    }
    DivModUnique(a, m, q, r);
  }

  /** Taking a number modulo a larger power first does not change its low bits. */
  lemma {:induction false} ModMod(n: nat, k: nat, w: nat)
    requires w <= k
    ensures n % Pow2(k) % Pow2(w) == n % Pow2(w)
    decreases w
  {
    if w > 0 {
      ModMod(n / 2, k - 1, w - 1);
      ModSplit(n, Pow2(k - 1), Pow2(k));
      ModSplit(n, Pow2(w - 1), Pow2(w));
      ModSplit(n % Pow2(k), Pow2(w - 1), Pow2(w));
      Halves(n % 2, n / 2 % Pow2(k - 1));
    } else {
      ModOne(n);
      ModOne(n % Pow2(k));
    }
  }

  lemma ModOne(n: nat)
    ensures n % 1 == 0
  {
  }

  lemma Halves(b: nat, h: nat)
    requires b < 2
    ensures (b + 2 * h) / 2 == h && (b + 2 * h) % 2 == b
  {
  }

  /** Quotient and remainder are the only numbers that satisfy the division equation. */
  lemma DivModUnique(a: int, d: int, q: int, r: int)
    requires d > 0 && 0 <= r < d && a == d * q + r
    ensures a / d == q && a % d == r
  {
    var k := q - a / d;
    assert d * k == a % d - r;
    if k >= 1 {
      MulGrows(d, k);
    } else if k <= -1 {
      MulGrows(d, -k);
    }
  }

  lemma MulGrows(d: int, k: int)
    requires d > 0 && k >= 1
    ensures d * k >= d
  {
  }

  lemma MulMono(a: nat, b: nat, m: nat)
    requires a <= b
    ensures a * m <= b * m
  {
    assert b * m == a * m + (b - a) * m;
  }

  lemma DivAtMost(n: nat, d: nat, m: nat)
    requires d > 0
    ensures n / d <= m <==> n < d * (m + 1)
  {
    var q := n / d;
    assert q * d <= n < q * d + d;
    if q <= m {
      MulMono(q + 1, m + 1, d);
    } else {
      MulMono(m + 1, q, d);
    }
  }

  lemma {:induction false} ShlIsMul(x: nat, n: nat)
    ensures Shl(x, n) == x * Pow2(n)
  {
    if n > 0 {
      ShlIsMul(x, n - 1);
      assert x * Pow2(n) == 2 * (x * Pow2(n - 1));
    }
  }

  lemma {:induction false} ShrIsDiv(x: nat, n: nat)
    ensures Shr(x, n) == x / Pow2(n)
    decreases n
  {
    if n > 0 {
      ShrIsDiv(x / 2, n - 1);
      DivTwice(x, Pow2(n - 1), Pow2(n));
    }
  }

  lemma DivTwice(a: nat, p: nat, m: nat)
    requires p > 0 && m == 2 * p
    ensures a / m == a / 2 / p
  {
    var h := a / 2;
    var q := h / p;
    var r := 2 * (h % p) + a % 2;
    assert h == p * q + h % p;
    assert m * q == 2 * (p * q);
    DivModUnique(a, m, q, r);
  }

  lemma {:induction false} ShrOfShl(x: nat, n: nat)
    ensures Shr(Shl(x, n), n) == x
  {
    if n > 0 { ShrOfShl(x, n - 1); }
  }

  /** Masking with a field keeps the field in place. */
  lemma {:induction false} AndField(a: nat, w: nat, l: nat)
    ensures And(a, Ones(w, l)) == Shl(Shr(a, l) % Pow2(w), l)
    decreases l
  {
    if l == 0 {
      AndMask(a, w);
    } else {
      AndEven(a, Ones(w, l - 1));
      AndField(a / 2, w, l - 1);
    }
  }

  lemma AndEven(a: nat, m: nat)
    ensures And(a, 2 * m) == 2 * And(a / 2, m)
  {
    assert (2 * m) / 2 == m && (2 * m) % 2 == 0;
    if a / 2 == 0 && m == 0 {
      AndZero(0);
    }
  }
}
