/** Register fields of the I3C controller (src/i3c/constants.rs). */
module I3cFields {
  import opened Bits
  import opened Bytes

  /** `bits(h, l)`: ones from bit l to bit h. */
  function Mask(h: nat, l: nat): nat
    requires l <= h
  {
    Ones(h - l + 1, l)
  }

  /** `field_prep(bits(h, l), val)` on 32-bit words. */
  function FieldPrep(h: nat, l: nat, val: nat): nat
    requires l <= h < 32
  {
    And(Shl(val, l) % Pow2(32), Mask(h, l))
  }

  /** `field_get(val, bits(h, l), l)` */
  function FieldGet(val: nat, h: nat, l: nat): nat
    requires l <= h < 32
  {
    Shr(And(val, Mask(h, l)), l)
  }

  /** A field is read as the bits between its ends. */
  lemma FieldGetIs(val: nat, h: nat, l: nat)
    requires l <= h < 32
    ensures FieldGet(val, h, l) == Shr(val, l) % Pow2(h - l + 1)
  {
    AndField(val, h - l + 1, l);
    ShrOfShl(Shr(val, l) % Pow2(h - l + 1), l);
  }

  lemma {:induction false} ModShr(n: nat, k: nat, l: nat, w: nat)
    requires l + w <= k
    ensures Shr(n % Pow2(k), l) % Pow2(w) == Shr(n, l) % Pow2(w)
    decreases l
  {
    if l == 0 {
      ModMod(n, k, w);
    } else {
      ModSplit(n, Pow2(k - 1), Pow2(k));
      Halves(n % 2, n / 2 % Pow2(k - 1));
      ModShr(n / 2, k - 1, l - 1, w);
    }
  }

  /** A field is written with its value truncated to the field, even if the shift drops bits. */
  lemma FieldPrepIs(h: nat, l: nat, val: nat)
    requires l <= h < 32
    ensures FieldPrep(h, l, val) == Shl(val % Pow2(h - l + 1), l)
  {
    AndField(Shl(val, l) % Pow2(32), h - l + 1, l);
    ModShr(Shl(val, l), 32, l, h - l + 1);
    ShrOfShl(val, l);
  }

  /** A value survives a field exactly when it fits. */
  lemma FieldRoundTrip(h: nat, l: nat, val: nat)
    requires l <= h < 32
    ensures FieldGet(FieldPrep(h, l, val), h, l) == val <==> val < Pow2(h - l + 1)
  {
    var w := Pow2(h - l + 1);
    FieldPrepIs(h, l, val);
    FieldGetIs(FieldPrep(h, l, val), h, l);
    ShrOfShl(val % w, l);
    DivModUnique(val % w, w, 0, val % w);
    if val < w { DivModUnique(val, w, 0, val); }
  }
}
