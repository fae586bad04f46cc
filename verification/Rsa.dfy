/** RSA signatures around the hardware engine for modular exponentiation (src/rsa.rs). */
module Rsa {
  import opened Bits
  import opened Bytes

  const SRAM_DST_EXPONENT: nat := 0x0
  const SRAM_DST_MODULUS: nat := 0x400
  const SRAM_DST_DATA: nat := 0x800
  const SRAM_DST_RESULT: nat := 0x1400
  const SRAM_SIZE: nat := 0x1800
  const RSA_MAX_LEN: nat := 0x400
  const BUFFER: nat := 512
  const RETRIES: nat := 10000

  datatype Error = InvalidLength | HardwareError | VerificationFailed
  datatype Result<+T> = Ok(value: T) | Err(error: Error)
  datatype PaddingError = OutputTooSmall | UnsupportedDigest
  datatype PadResult = Padded(len: nat) | PadErr(error: PaddingError)

  datatype Digest = Digest(data: seq<byte>, len: nat) {
    predicate Valid() { |data| == 64 && len <= 64 }
    function Bytes(): seq<byte> requires Valid() { data[..len] }
  }

  datatype Signature = Signature(data: seq<byte>, len: nat) {
    predicate Valid() { |data| == BUFFER && len <= BUFFER }
    function Bytes(): seq<byte> requires Valid() { data[..len] }
  }

  /** A key: the modulus and one of the exponents, most significant byte first. */
  datatype Key = Key(m: seq<byte>, ed: seq<byte>, mBits: nat, edBits: nat) {
    function MLen(): nat { (mBits + 7) / 8 }
    function EdLen(): nat { (edBits + 7) / 8 }

    /** What the slices in the driver and the memory of the engine ask for. */
    predicate Valid() {
      MLen() <= Min(|m|, BUFFER) && EdLen() <= Min(|ed|, RSA_MAX_LEN) && Modulus() > 0
    }

    function Modulus(): nat
    {
      if MLen() <= |m| then FromBE(m[..MLen()]) else 0
    }

    function Exponent(): nat
    {
      if EdLen() <= |ed| then FromBE(ed[..EdLen()]) else 0
    }
  }

  /** The bytes of a key are as many as its bits need, and no more; the numbers are those of the
    * leading bytes. */
  lemma KeyLengths(key: Key)
    requires key.Valid()
    ensures 8 * (key.MLen() - 1) < key.mBits <= 8 * key.MLen()
    ensures 8 * (key.EdLen() - 1) < key.edBits <= 8 * key.EdLen()
    ensures key.Modulus() == FromBE(key.m[..key.MLen()]) && key.Exponent() == FromBE(key.ed[..key.EdLen()])
  {
  }

  ghost predicate Reduces(f: (nat, nat, nat) -> nat) {
    forall x, e, m | m > 0 :: f(x, e, m) < m
  }

  function FirstExponentiation(x: nat, e: nat, m: nat): nat { 0 }

  /** Modular exponentiation, as the engine computes it: all that is known is that the result
    * is below the modulus. */
  type ModExp = f: (nat, nat, nat) -> nat | Reduces(f) ghost witness FirstExponentiation

  // ---- byte strings and numbers

  /** s without its leading zeros. */
  function Strip(s: seq<byte>): (r: seq<byte>)
    ensures |r| <= |s| && (r != [] ==> r[0] != 0)
    ensures FromBE(r) == FromBE(s)
  {
    if s == [] || s[0] != 0 then s
    else
      DropZero(s);
      Strip(s[1..])
  }

  lemma {:induction false} DropZero(s: seq<byte>)
    requires s != [] && s[0] == 0
    ensures FromBE(s[1..]) == FromBE(s)
  {
    if |s| > 1 {
      var init := s[..|s| - 1];
      DropZero(init);
      assert s[1..][..|s| - 2] == init[1..];
    }
  }

  lemma {:induction false} StripSnoc(s: seq<byte>, b: byte)
    ensures Strip(s + [b]) == if Strip(s) == [] && b == 0 then [] else Strip(s) + [b]
  {
    if s != [] && s[0] == 0 {
      StripSnoc(s[1..], b);
      assert (s + [b])[1..] == s[1..] + [b];
    } else if s == [] {
      assert s + [b] == [b] && [b][1..] == [] && Strip(s) + [b] == [b];
    }
  }

  /** Reading byte n of w, when k bytes of what was kept so far have been stored. */
  lemma StripNext(w: seq<byte>, n: nat, k: nat)
    requires n < |w| && k <= |Strip(w[..n])|
    ensures var (before, after) := (Strip(w[..n]), Strip(w[..n + 1]));
      && (before == [] && w[n] == 0 ==> after == [])
      && (!(before == [] && w[n] == 0) ==>
        && |after| == |before| + 1 && after[..k] == before[..k]
        && (k == |before| ==> after[..k + 1] == before[..k] + [w[n]]))
  {
    assert w[..n + 1] == w[..n] + [w[n]];
    StripSnoc(w[..n], w[n]);
  }

  lemma {:induction false} FromBEZeros(n: nat, s: seq<byte>)
    ensures FromBE(Zeros(n) + s) == FromBE(s)
  {
    if n > 0 {
      DropZero(Zeros(n) + s);
      assert (Zeros(n) + s)[1..] == Zeros(n - 1) + s;
      FromBEZeros(n - 1, s);
    } else {
      assert Zeros(0) + s == s;
    }
  }

  /** Padding with zeros in front gives the encoding of the number in k bytes. */
  lemma RightAligned(s: seq<byte>, k: nat)
    requires |s| <= k
    ensures Zeros(k - |s|) + s == BE(FromBE(s), k)
  {
    FromBEZeros(k - |s|, s);
    BEOfFromBE(Zeros(k - |s|) + s);
  }

  lemma {:induction false} FromLEZeros(s: seq<byte>, n: nat)
    ensures FromLE(s + Zeros(n)) == FromLE(s)
    decreases |s|, n
  {
    if s != [] {
      assert (s + Zeros(n))[1..] == s[1..] + Zeros(n);
      FromLEZeros(s[1..], n);
    } else if n > 0 {
      assert s + Zeros(n) == Zeros(n);
      assert Zeros(n)[1..] == Zeros(n - 1);
      assert s + Zeros(n - 1) == Zeros(n - 1);
      FromLEZeros(s, n - 1);
    }
  }

  lemma {:induction false} ReversedLE(n: nat, k: nat)
    ensures Reversed(LE(n, k)) == BE(n, k)
    decreases k
  {
    if k > 0 {
      ReversedLE(n / 256, k - 1);
      assert LE(n, k)[1..] == LE(n / 256, k - 1);
    }
  }

  /** A number below 256^k has at most k bytes without leading zeros. */
  lemma {:induction false} StripFits(s: seq<byte>, k: nat)
    requires FromBE(s) < Pow2(8 * k)
    ensures |Strip(s)| <= k
  {
    var t := Strip(s);
    if |t| > k {
      LeadingByte(t);
      Pow2Mono(8 * k, 8 * (|t| - 1));
    }
  }

  lemma {:induction false} LeadingByte(s: seq<byte>)
    requires s != [] && s[0] != 0
    ensures FromBE(s) >= Pow2(8 * (|s| - 1))
  {
    if |s| > 1 {
      LeadingByte(s[..|s| - 1]);
      Pow256(|s| - 1);
    } else {
      assert s[..0] == [];
    }
  }

  // ---- padding

  function DerPrefix(n: nat): (der: Option<seq<byte>>)
    ensures der.Some? <==> n == 32 || n == 48 || n == 64
    ensures der.Some? ==> |der.value| == 19
  {
    if n == 32 then
      Some([0x30, 0x31, 0x30, 0x0d, 0x06, 0x09, 0x60, 0x86, 0x48,
            0x01, 0x65, 0x03, 0x04, 0x02, 0x01, 0x05, 0x00, 0x04, 0x20])
    else if n == 48 then
      Some([0x30, 0x41, 0x30, 0x0d, 0x06, 0x09, 0x60, 0x86, 0x48,
            0x01, 0x65, 0x03, 0x04, 0x02, 0x02, 0x05, 0x00, 0x04, 0x30])
    else if n == 64 then
      Some([0x30, 0x51, 0x30, 0x0d, 0x06, 0x09, 0x60, 0x86, 0x48,
            0x01, 0x65, 0x03, 0x04, 0x02, 0x03, 0x05, 0x00, 0x04, 0x40])
    else None
  }

  /** The prefix is the DER header of a DigestInfo: a sequence of an algorithm identifier and an
    * octet string of n bytes, for SHA-256, SHA-384 or SHA-512 with k = 1, 2 or 3. */
  lemma DerPrefixIs(n: nat, k: byte)
    requires (n == 32 && k == 1) || (n == 48 && k == 2) || (n == 64 && k == 3)
    ensures DerPrefix(n) == Some([0x30, |HashAlgorithm(k)| + 2 + n] + HashAlgorithm(k) + [0x04, n])
  {
    HashAlgorithmBytes(k);
    var id: seq<byte> := [0x30, 13, 0x06, 9, 0x60, 0x86, 0x48, 0x01, 0x65, 0x03, 0x04, 0x02, k, 0x05, 0];
    PrefixBytes(id, n);
  }

  /** The algorithm identifier: object identifier 2.16.840.1.101.3.4.2.k, and NULL. */
  function HashAlgorithm(k: byte): seq<byte> {
    Der(0x30, Der(0x06, [0x60, 0x86, 0x48, 0x01, 0x65, 0x03, 0x04, 0x02, k]) + Der(0x05, []))
  }

  lemma HashAlgorithmBytes(k: byte)
    ensures HashAlgorithm(k) == [0x30, 13, 0x06, 9, 0x60, 0x86, 0x48, 0x01, 0x65, 0x03, 0x04, 0x02, k, 0x05, 0]
  {
    var hash: seq<byte> := [0x60, 0x86, 0x48, 0x01, 0x65, 0x03, 0x04, 0x02, k];
    assert Der(0x06, hash) == [0x06, 9, 0x60, 0x86, 0x48, 0x01, 0x65, 0x03, 0x04, 0x02, k];
    assert Der(0x05, []) == [0x05, 0];
  }

  lemma PrefixBytes(id: seq<byte>, n: byte)
    requires |id| == 15
    ensures [0x30, 17 + n] + id + [0x04, n]
      == [0x30, 17 + n, id[0], id[1], id[2], id[3], id[4], id[5], id[6], id[7], id[8],
          id[9], id[10], id[11], id[12], id[13], id[14], 0x04, n]
  {
  }

  /** A short DER element: tag, length and contents. */
  function Der(tag: byte, contents: seq<byte>): seq<byte>
    requires |contents| < 128
  {
    [tag, |contents|] + contents
  }

  function Ones255(n: nat): (s: seq<byte>)
    ensures |s| == n
  {
    seq(n, _ => 0xFF)
  }

  /** The encoded message of EMSA-PKCS1-v1_5, section 9.2 of RFC 8017: 00 01 PS 00 T with at
    * least eight bytes of PS. */
  function Encoded(der: seq<byte>, digest: seq<byte>, n: nat): (s: seq<byte>)
    requires n >= |der| + |digest| + 11
    ensures |s| == n
  {
    [0x00, 0x01] + Ones255(n - |der| - |digest| - 3) + [0x00] + der + digest
  }

  method Pkcs1V15PadInplace(digest: seq<byte>, out: array<byte>, outLen: nat) returns (r: PadResult)
    requires outLen <= out.Length
    modifies out
    ensures r == if DerPrefix(|digest|).None? then PadErr(UnsupportedDigest)
                 else if outLen < 19 + |digest| + 11 then PadErr(OutputTooSmall)
                 else Padded(outLen)
    ensures r.Padded? ==> out[..outLen] == Encoded(DerPrefix(|digest|).value, digest, outLen)
    ensures r.PadErr? ==> out[..] == old(out[..])
  {
    var prefix := DerPrefix(|digest|);
    if prefix.None? {
      return PadErr(UnsupportedDigest);
    }
    var der := prefix.value;
    var tLen := |der| + |digest|;
    if outLen < tLen + 11 {
      return PadErr(OutputTooSmall);
    }
    var psLen := outLen - tLen - 3;
    CopyInto(out, 0, [0x00, 0x01]);
    FillRange(out, 2, psLen, 0xFF);
    CopyInto(out, 2 + psLen, [0x00]);
    CopyInto(out, 3 + psLen, der);
    CopyInto(out, 3 + psLen + |der|, digest);
    PaddedParts(old(out[..]), der, digest, outLen);
    r := Padded(outLen);
  }

  lemma PaddedParts(s: seq<byte>, der: seq<byte>, digest: seq<byte>, n: nat)
    requires |der| + |digest| + 11 <= n <= |s|
    ensures
      var ps := n - |der| - |digest| - 3;
      var s1 := Splice(Splice(s, 0, [0x00, 0x01]), 2, seq(ps, _ => 0xFF));
      Splice(Splice(Splice(s1, 2 + ps, [0x00]), 3 + ps, der), 3 + ps + |der|, digest)[..n] == Encoded(der, digest, n)
  {
    var ps := n - |der| - |digest| - 3;
    SpliceAdjacent(s, 0, [0x00, 0x01], Ones255(ps));
    SpliceAdjacent(s, 0, [0x00, 0x01] + Ones255(ps), [0x00]);
    SpliceAdjacent(s, 0, [0x00, 0x01] + Ones255(ps) + [0x00], der);
    SpliceAdjacent(s, 0, [0x00, 0x01] + Ones255(ps) + [0x00] + der, digest);
    assert Ones255(ps) == seq(ps, _ => 0xFF);
  }

  // ---- what the driver computes

  /** The engine's result without its leading zeros. */
  function EngineOutput(f: ModExp, input: seq<byte>, key: Key): seq<byte>
    requires key.Valid()
  {
    Strip(BE(f(FromBE(input), key.Exponent(), key.Modulus()), RSA_MAX_LEN))
  }

  lemma ModulusBound(key: Key)
    requires key.Valid()
    ensures key.Modulus() < Pow2(8 * key.MLen()) <= Pow2(8 * RSA_MAX_LEN)
  {
    FromBEBound(key.m[..key.MLen()]);
    Pow2Mono(8 * key.MLen(), 8 * RSA_MAX_LEN);
  }

  lemma EngineOutputIs(f: ModExp, input: seq<byte>, key: Key)
    requires key.Valid()
    ensures |EngineOutput(f, input, key)| <= key.MLen()
    ensures FromBE(EngineOutput(f, input, key)) == f(FromBE(input), key.Exponent(), key.Modulus())
  {
    ModulusBound(key);
    var n := f(FromBE(input), key.Exponent(), key.Modulus());
    FromBEOfBE(n, RSA_MAX_LEN);
    StripFits(BE(n, RSA_MAX_LEN), key.MLen());
  }

  lemma AlignedOutput(f: ModExp, input: seq<byte>, key: Key)
    requires key.Valid()
    ensures var out := EngineOutput(f, input, key);
      && |out| <= key.MLen()
      && Zeros(key.MLen() - |out|) + out == BE(f(FromBE(input), key.Exponent(), key.Modulus()), key.MLen())
  {
    EngineOutputIs(f, input, key);
    RightAligned(EngineOutput(f, input, key), key.MLen());
  }

  /** The digest has a known length and the modulus room for its padding. */
  predicate Signable(message: Digest, key: Key) {
    DerPrefix(message.len).Some? && key.MLen() >= message.len + 30
  }

  /** What sign returns when padding and engine succeed. */
  function SignatureOf(f: ModExp, digest: seq<byte>, key: Key): seq<byte>
    requires key.Valid() && DerPrefix(|digest|).Some? && key.MLen() >= |digest| + 30
  {
    var em := Encoded(DerPrefix(|digest|).value, digest, key.MLen());
    BE(f(FromBE(em), key.Exponent(), key.Modulus()), key.MLen())
  }

  /** The engine's value, stripped, ends in the digest: the comparison that verify makes. */
  predicate AcceptsValue(v: nat, digest: seq<byte>) {
    var out := Strip(BE(v, RSA_MAX_LEN));
    |digest| <= |out| && out[|out| - |digest|..] == digest
  }

  predicate Accepts(f: ModExp, signature: seq<byte>, digest: seq<byte>, key: Key)
    requires key.Valid()
  {
    AcceptsValue(f(FromBE(signature), key.Exponent(), key.Modulus()), digest)
  }

  /** The modulus has exactly mBits bits, so it exceeds every encoded message. */
  predicate FullModulus(key: Key) {
    key.Valid() && key.mBits > 0 && Pow2(key.mBits - 1) <= key.Modulus()
  }

  lemma EncodedBelowModulus(der: seq<byte>, digest: seq<byte>, key: Key)
    requires FullModulus(key) && key.MLen() >= |der| + |digest| + 11
    ensures FromBE(Encoded(der, digest, key.MLen())) < key.Modulus()
  {
    var em := Encoded(der, digest, key.MLen());
    DropZero(em);
    FromBEBound(em[1..]);
    Pow2Mono(8 * (key.MLen() - 1), key.mBits - 1);
  }

  /** Removing the leading zero of an encoded message leaves one that starts with 1. */
  lemma StripEncoded(em: seq<byte>, k: nat)
    requires |em| >= 2 && em[0] == 0 && em[1] != 0 && |em| <= k
    ensures Strip(BE(FromBE(em), k)) == em[1..]
  {
    RightAligned(em, k);
    StripZeros(k - |em|, em);
    assert Strip(em) == Strip(em[1..]);
  }

  lemma {:induction false} StripZeros(n: nat, s: seq<byte>)
    ensures Strip(Zeros(n) + s) == Strip(s)
  {
    if n == 0 {
      assert Zeros(0) + s == s;
    } else {
      assert (Zeros(n) + s)[1..] == Zeros(n - 1) + s;
      StripZeros(n - 1, s);
    }
  }

  /** Verify accepts every signature that sign makes, when the exponents invert each other. */
  lemma VerifyAcceptsSigned(f: ModExp, digest: seq<byte>, priv: Key, pub: Key)
    requires FullModulus(priv) && pub.Valid()
    requires priv.MLen() == pub.MLen() && priv.Modulus() == pub.Modulus()
    requires DerPrefix(|digest|).Some? && priv.MLen() >= |digest| + 30
    requires forall x: nat | x < priv.Modulus() ::
      f(f(x, priv.Exponent(), priv.Modulus()), pub.Exponent(), pub.Modulus()) == x
    ensures Accepts(f, SignatureOf(f, digest, priv), digest, pub)
  {
    var der := DerPrefix(|digest|).value;
    var em := Encoded(der, digest, priv.MLen());
    var x := FromBE(em);
    EncodedBelowModulus(der, digest, priv);
    ModulusBound(priv);
    FromBEOfBE(f(x, priv.Exponent(), priv.Modulus()), priv.MLen());
    assert f(FromBE(SignatureOf(f, digest, priv)), pub.Exponent(), pub.Modulus()) == x;
    StripEncoded(em, RSA_MAX_LEN);
    assert em[1..][|em| - 1 - |digest|..] == digest;
  }

  // ---- verify against the standard

  /** The part of an encoded message in front of the digest. */
  function EncodedFront(der: seq<byte>, n: nat, k: nat): (s: seq<byte>)
    requires k >= |der| + n + 11
    ensures |s| == k - n
  {
    [0x00, 0x01] + Ones255(k - |der| - n - 3) + [0x00] + der
  }

  /** RSASSA-PKCS1-v1_5 verification, section 8.2.2 of RFC 8017: a signature of the length of
    * the modulus, in range, that opens to the whole encoded message. */
  predicate RfcAccepts(f: ModExp, signature: seq<byte>, digest: seq<byte>, key: Key)
    requires key.Valid() && DerPrefix(|digest|).Some? && key.MLen() >= |digest| + 30
  {
    && |signature| == key.MLen() && FromBE(signature) < key.Modulus()
    && f(FromBE(signature), key.Exponent(), key.Modulus())
      == FromBE(Encoded(DerPrefix(|digest|).value, digest, key.MLen()))
  }

  /** The number of a byte string, split in front of its last n bytes. */
  lemma {:induction false} SplitValue(s: seq<byte>, n: nat)
    requires n <= |s|
    ensures FromBE(s) == FromBE(s[..|s| - n]) * Pow2(8 * n) + FromBE(s[|s| - n..])
    decreases n
  {
    if n == 0 {
      assert s[..|s|] == s && s[|s|..] == [];
    } else {
      var init, tail := s[..|s| - 1], s[|s| - n..];
      SplitValue(init, n - 1);
      SplitSlices(s, n);
      Pow256(n);
      ScaledSplit(FromBE(init), FromBE(s[..|s| - n]), Pow2(8 * (n - 1)), FromBE(tail[..n - 1]));
    }
  }

  lemma SplitSlices(s: seq<byte>, n: nat)
    requires 0 < n <= |s|
    ensures
      var init, tail := s[..|s| - 1], s[|s| - n..];
      && init[..|init| - (n - 1)] == s[..|s| - n] && init[|init| - (n - 1)..] == tail[..n - 1]
      && FromBE(tail) == 256 * FromBE(tail[..n - 1]) + s[|s| - 1]
  {
  }

  lemma ScaledSplit(v: nat, h: nat, p: nat, l: nat)
    requires v == h * p + l
    ensures 256 * v == h * (256 * p) + 256 * l
  {
    assert h * (256 * p) == 256 * (h * p);
  }

  /** The last n bytes are the remainder modulo 256^n, the others the quotient. */
  lemma TailIsRemainder(s: seq<byte>, n: nat)
    requires n <= |s|
    ensures FromBE(s) % Pow2(8 * n) == FromBE(s[|s| - n..])
    ensures FromBE(s) / Pow2(8 * n) == FromBE(s[..|s| - n])
  {
    SplitValue(s, n);
    FromBEBound(s[|s| - n..]);
    QuotientAndRest(FromBE(s), FromBE(s[..|s| - n]), Pow2(8 * n), FromBE(s[|s| - n..]));
  }

  lemma QuotientAndRest(v: nat, h: nat, p: nat, l: nat)
    requires v == h * p + l && l < p
    ensures v / p == h && v % p == l
  {
    assert h * p == p * h;
    DivModUnique(v, p, h, l);
  }

  /** A number has at least n bytes without leading zeros when it reaches 256^(n - 1). */
  lemma SignificantBytes(s: seq<byte>, n: nat)
    requires n > 0
    ensures |Strip(s)| >= n <==> FromBE(s) >= Pow2(8 * (n - 1))
  {
    var t := Strip(s);
    if |t| >= n {
      LeadingByte(t);
      Pow2Mono(8 * (n - 1), 8 * (|t| - 1));
    } else {
      FromBEBound(t);
      Pow2Mono(8 * |t|, 8 * (n - 1));
    }
  }

  lemma SameValue(s: seq<byte>, t: seq<byte>)
    requires |s| == |t| && FromBE(s) == FromBE(t)
    ensures s == t
  {
    BEOfFromBE(s);
    BEOfFromBE(t);
  }

  /** Verify accepts exactly the values that are congruent to the digest modulo 256^n and have
    * at least n significant bytes. */
  lemma AcceptsExact(v: nat, digest: seq<byte>)
    requires v < Pow2(8 * RSA_MAX_LEN)
    ensures AcceptsValue(v, digest) <==>
      && v % Pow2(8 * |digest|) == FromBE(digest)
      && (digest == [] || v >= Pow2(8 * (|digest| - 1)))
  {
    var out, n := Strip(BE(v, RSA_MAX_LEN)), |digest|;
    FromBEOfBE(v, RSA_MAX_LEN);
    if n > 0 {
      SignificantBytes(BE(v, RSA_MAX_LEN), n);
    }
    if n <= |out| {
      EndsIn(out, digest);
    }
  }

  lemma EndsIn(out: seq<byte>, digest: seq<byte>)
    requires |digest| <= |out|
    ensures out[|out| - |digest|..] == digest <==> FromBE(out) % Pow2(8 * |digest|) == FromBE(digest)
  {
    TailIsRemainder(out, |digest|);
    if FromBE(out[|out| - |digest|..]) == FromBE(digest) {
      SameValue(out[|out| - |digest|..], digest);
    }
  }

  /** Verify accepts every signature, whatever the engine computes, exactly for the empty
    * digest. */
  lemma AcceptsAllIff(digest: seq<byte>, key: Key)
    requires key.Valid()
    ensures (forall f: ModExp, signature: seq<byte> :: Accepts(f, signature, digest, key)) <==> digest == []
  {
    if digest == [] {
      forall f: ModExp, signature: seq<byte>
        ensures Accepts(f, signature, digest, key)
      {
        var out := Strip(BE(f(FromBE(signature), key.Exponent(), key.Modulus()), RSA_MAX_LEN));
        assert out[|out|..] == [];
      }
    } else {
      var f: ModExp := FirstExponentiation;
      RejectsZero(digest);
      assert !Accepts(f, [], digest, key);
    }
  }

  lemma RejectsZero(digest: seq<byte>)
    requires digest != []
    ensures !AcceptsValue(0, digest)
  {
    FromBEOfBEZero(RSA_MAX_LEN);
    SignificantBytes(BE(0, RSA_MAX_LEN), |digest|);
  }

  lemma FromBEOfBEZero(k: nat)
    ensures FromBE(BE(0, k)) == 0
  {
    FromBEOfBE(0, k);
  }

  /** The standard's check is verify's own plus what verify leaves out: length and range of the
    * signature, and everything in front of the digest. */
  lemma RfcAcceptsExact(f: ModExp, signature: seq<byte>, digest: seq<byte>, key: Key)
    requires key.Valid() && DerPrefix(|digest|).Some? && key.MLen() >= |digest| + 30
    ensures RfcAccepts(f, signature, digest, key) <==>
      && Accepts(f, signature, digest, key)
      && |signature| == key.MLen() && FromBE(signature) < key.Modulus()
      && f(FromBE(signature), key.Exponent(), key.Modulus()) / Pow2(8 * |digest|)
        == FromBE(EncodedFront(DerPrefix(|digest|).value, |digest|, key.MLen()))
  {
    var v := f(FromBE(signature), key.Exponent(), key.Modulus());
    ModulusBound(key);
    AcceptsExact(v, digest);
    EncodedValue(v, digest, key.MLen());
  }

  /** A number is the encoded message if its quotient is the front and its remainder the
    * digest; it then has enough significant bytes. */
  lemma EncodedValue(v: nat, digest: seq<byte>, k: nat)
    requires DerPrefix(|digest|).Some? && k >= |digest| + 30
    ensures
      var n, der := |digest|, DerPrefix(|digest|).value;
      && (v == FromBE(Encoded(der, digest, k)) <==>
            v % Pow2(8 * n) == FromBE(digest) && v / Pow2(8 * n) == FromBE(EncodedFront(der, n, k)))
      && FromBE(Encoded(der, digest, k)) >= Pow2(8 * (k - 2)) >= Pow2(8 * (n - 1))
  {
    var n, der := |digest|, DerPrefix(|digest|).value;
    var em := Encoded(der, digest, k);
    assert em[..k - n] == EncodedFront(der, n, k) && em[k - n..] == digest;
    TailIsRemainder(em, n);
    Recompose(v, Pow2(8 * n));
    Recompose(FromBE(em), Pow2(8 * n));
    EncodedIsLarge(der, digest, k);
  }

  lemma EncodedIsLarge(der: seq<byte>, digest: seq<byte>, k: nat)
    requires |der| + |digest| + 11 <= k && |digest| > 0
    ensures FromBE(Encoded(der, digest, k)) >= Pow2(8 * (k - 2)) >= Pow2(8 * (|digest| - 1))
  {
    var em := Encoded(der, digest, k);
    DropZero(em);
    LeadingByte(em[1..]);
    Pow2Mono(8 * (|digest| - 1), 8 * (k - 2));
  }

  lemma Recompose(v: nat, p: nat)
    requires p > 0
    ensures v == v / p * p + v % p
  {
  }

  /** What the standard accepts, verify accepts. */
  lemma RfcImpliesAccepts(f: ModExp, signature: seq<byte>, digest: seq<byte>, key: Key)
    requires key.Valid() && DerPrefix(|digest|).Some? && key.MLen() >= |digest| + 30
    requires RfcAccepts(f, signature, digest, key)
    ensures Accepts(f, signature, digest, key)
  {
    RfcAcceptsExact(f, signature, digest, key);
  }

  /** The converse fails for every digest and every key with room for it: the byte 1 in front
    * of the digest is a value below the modulus that verify accepts and the standard does not. */
  lemma OtherValueAccepted(digest: seq<byte>, key: Key)
    requires FullModulus(key) && DerPrefix(|digest|).Some? && key.MLen() >= |digest| + 30
    ensures
      var v := FromBE([1] + digest);
      && v < key.Modulus()
      && AcceptsValue(v, digest)
      && v != FromBE(Encoded(DerPrefix(|digest|).value, digest, key.MLen()))
  {
    var k := key.MLen();
    OtherValueSmall(digest, k);
    ModulusIsLarge(key);
    NotEncoded(FromBE([1] + digest), DerPrefix(|digest|).value, digest, k);
    EndsInDigest(digest);
  }

  lemma ModulusIsLarge(key: Key)
    requires FullModulus(key) && key.MLen() >= 2
    ensures Pow2(8 * (key.MLen() - 2)) <= key.Modulus()
  {
    Pow2Mono(8 * (key.MLen() - 2), key.mBits - 1);
  }

  lemma NotEncoded(v: nat, der: seq<byte>, digest: seq<byte>, k: nat)
    requires |der| + |digest| + 11 <= k && |digest| > 0 && v < Pow2(8 * (k - 2))
    ensures v != FromBE(Encoded(der, digest, k))
  {
    EncodedIsLarge(der, digest, k);
  }

  lemma OtherValueSmall(digest: seq<byte>, k: nat)
    requires |digest| + 3 <= k
    ensures FromBE([1] + digest) < Pow2(8 * (k - 2))
  {
    FromBEBound([1] + digest);
    Pow2Mono(8 * (|digest| + 1), 8 * (k - 2));
  }

  lemma EndsInDigest(digest: seq<byte>)
    requires |digest| < RSA_MAX_LEN
    ensures AcceptsValue(FromBE([1] + digest), digest)
  {
    var t := [1] + digest;
    RightAligned(t, RSA_MAX_LEN);
    StripZeros(RSA_MAX_LEN - |t|, t);
    assert t[1..] == digest;
  }

  /** So an engine that opens a signature to that value has it accepted against the standard. */
  lemma VerifyExceedsRfc(f: ModExp, signature: seq<byte>, digest: seq<byte>, key: Key)
    requires FullModulus(key) && DerPrefix(|digest|).Some? && key.MLen() >= |digest| + 30
    requires f(FromBE(signature), key.Exponent(), key.Modulus()) == FromBE([1] + digest)
    ensures Accepts(f, signature, digest, key) && !RfcAccepts(f, signature, digest, key)
  {
    OtherValueAccepted(digest, key);
  }

  /** Whenever the exponents invert each other, there is such a signature for every digest. */
  lemma SomeSignatureExceedsRfc(f: ModExp, digest: seq<byte>, priv: Key, pub: Key)
    requires FullModulus(priv) && pub.Valid()
    requires priv.MLen() == pub.MLen() && priv.Modulus() == pub.Modulus()
    requires DerPrefix(|digest|).Some? && priv.MLen() >= |digest| + 30
    requires forall x: nat | x < priv.Modulus() ::
      f(f(x, priv.Exponent(), priv.Modulus()), pub.Exponent(), pub.Modulus()) == x
    ensures exists s: seq<byte> ::
      |s| == pub.MLen() && Accepts(f, s, digest, pub) && !RfcAccepts(f, s, digest, pub)
  {
    var x := FromBE([1] + digest);
    OtherValueAccepted(digest, priv);
    ModulusBound(priv);
    var s := BE(f(x, priv.Exponent(), priv.Modulus()), priv.MLen());
    FromBEOfBE(f(x, priv.Exponent(), priv.Modulus()), priv.MLen());
    assert Accepts(f, s, digest, pub) && !RfcAccepts(f, s, digest, pub);
  }

  // ---- the driver

  class AspeedRsa {
    const sram: array<byte>
    const modExp: ModExp
    const delays: nat -> nat      // status polls until trigger n is done
    var triggers: nat

    predicate Valid() { sram.Length == SRAM_SIZE }

    constructor (modExp: ModExp, delays: nat -> nat)
      ensures Valid() && fresh(sram) && this.modExp == modExp && this.delays == delays
    {
      sram := new byte[SRAM_SIZE](_ => 0);
      this.modExp, this.delays := modExp, delays;
      triggers := 0;
    }

    /** An operand area of the engine as a number; the engine counts from the low end. */
    function Operand(off: nat): nat
      requires Valid() && off + RSA_MAX_LEN <= SRAM_SIZE
      reads sram
    {
      FromLE(sram[off..off + RSA_MAX_LEN])
    }

    /** Write bytes into the memory, last byte first. */
    method LoadReversed(off: nat, bytes: seq<byte>)
      requires Valid() && off + |bytes| <= SRAM_SIZE
      modifies sram
      ensures sram[..] == Splice(old(sram[..]), off, Reversed(bytes))
    {
      for i := 0 to |bytes|
        invariant forall k | off <= k < off + i :: sram[k] == Reversed(bytes)[k - off]
        invariant forall k | 0 <= k < SRAM_SIZE && !(off <= k < off + i) :: sram[k] == old(sram[k])
      {
        sram[off + i] := bytes[|bytes| - 1 - i];
      }
    }

    /** The engine: modular exponentiation of its operands. */
    method Engine()
      requires Valid() && Operand(SRAM_DST_MODULUS) > 0
      modifies sram, `triggers
      ensures triggers == old(triggers) + 1
      ensures sram[SRAM_DST_RESULT..] ==
        LE(old(modExp(Operand(SRAM_DST_DATA), Operand(SRAM_DST_EXPONENT), Operand(SRAM_DST_MODULUS))), RSA_MAX_LEN)
    {
      var r := modExp(Operand(SRAM_DST_DATA), Operand(SRAM_DST_EXPONENT), Operand(SRAM_DST_MODULUS));
      CopyInto(sram, SRAM_DST_RESULT, LE(r, RSA_MAX_LEN));
      triggers := triggers + 1;
    }

    /** Clear the memory and load the operands. */
    method LoadOperands(input: seq<byte>, m: seq<byte>, ed: seq<byte>)
      requires Valid() && |input| <= BUFFER && |m| <= RSA_MAX_LEN && |ed| <= RSA_MAX_LEN
      modifies sram
      ensures Operand(SRAM_DST_DATA) == FromBE(input)
      ensures Operand(SRAM_DST_MODULUS) == FromBE(m) && Operand(SRAM_DST_EXPONENT) == FromBE(ed)
    {
      FillRange(sram, 0, SRAM_SIZE, 0);
      LoadOperand(SRAM_DST_EXPONENT, ed);
      LoadOperand(SRAM_DST_MODULUS, m);
      LoadOperand(SRAM_DST_DATA, input);
    }

    /** Load one operand into a clear area; the other areas keep theirs. */
    method LoadOperand(off: nat, bytes: seq<byte>)
      requires Valid() && off + RSA_MAX_LEN <= SRAM_SIZE && |bytes| <= RSA_MAX_LEN
      requires forall k | off <= k < off + RSA_MAX_LEN :: sram[k] == 0
      modifies sram
      ensures Operand(off) == FromBE(bytes)
      ensures forall k | 0 <= k < SRAM_SIZE && !(off <= k < off + RSA_MAX_LEN) :: sram[k] == old(sram[k])
      ensures forall o: nat | (o + RSA_MAX_LEN <= off || off + RSA_MAX_LEN <= o) && o + RSA_MAX_LEN <= SRAM_SIZE ::
        Operand(o) == old(Operand(o))
    {
      LoadReversed(off, bytes);
      PaddedOperand(sram[..], off, off + |bytes|, off + RSA_MAX_LEN, bytes);
      assert sram[..][off..off + RSA_MAX_LEN] == sram[off..off + RSA_MAX_LEN];
      forall o: nat | (o + RSA_MAX_LEN <= off || off + RSA_MAX_LEN <= o) && o + RSA_MAX_LEN <= SRAM_SIZE
        ensures Operand(o) == old(Operand(o))
      {
        assert sram[o..o + RSA_MAX_LEN] == old(sram[o..o + RSA_MAX_LEN]);
      }
    }

    /** Poll the status until the engine is done, a limited number of times. */
    method WaitReady() returns (ready: bool)
      requires triggers > 0
      ensures ready <==> delays(triggers - 1) < RETRIES
    {
      var retry, polls := RETRIES, 0;
      while true
        invariant polls <= delays(triggers - 1) && polls + retry == RETRIES && retry > 0
        decreases retry
      {
        if polls >= delays(triggers - 1) {
          return true;
        }
        polls := polls + 1;
        retry := retry - 1;
        if retry == 0 {
          return false;
        }
      }
      ready := false;
    }

    /** Put a byte at position i, if there is room. */
    method AppendByte(output: array<byte>, i: nat, b: byte) returns (next: nat)
      requires i <= output.Length
      modifies output
      ensures next == Min(i + 1, output.Length)
      ensures output[..next] == if i < output.Length then old(output[..i]) + [b] else old(output[..i])
      ensures forall k | next <= k < output.Length :: output[k] == old(output[k])
    {
      next := i;
      if i < output.Length {
        output[i] := b;
        next := i + 1;
      }
    }

    /** Copy the result out from its high end, dropping leading zeros. */
    method ReadResult(output: array<byte>) returns (outLen: nat)
      requires Valid() && output != sram
      modifies output
      ensures
        var s := Strip(Reversed(sram[SRAM_DST_RESULT..]));
        && outLen == |s|
        && output[..Min(outLen, output.Length)] == s[..Min(outLen, output.Length)]
      ensures forall k | Min(outLen, output.Length) <= k < output.Length :: output[k] == old(output[k])
    {
      ghost var w := Reversed(sram[SRAM_DST_RESULT..]);
      var leadingZero, i: nat := true, 0;
      outLen := 0;
      for n := 0 to RSA_MAX_LEN
        invariant Kept(output, Strip(w[..n]), outLen, i) && (leadingZero <==> outLen == 0)
        invariant forall k | i <= k < output.Length :: output[k] == old(output[k])
      {
        var b := sram[SRAM_DST_RESULT + RSA_MAX_LEN - 1 - n];
        StripNext(w, n, i);
        if b == 0 && leadingZero {
          continue;
        }
        leadingZero := false;
        i := KeepByte(output, Strip(w[..n]), Strip(w[..n + 1]), outLen, i, b);
        outLen := outLen + 1;
      }
      assert w[..RSA_MAX_LEN] == w;
    }

    /** Of outLen bytes, those there was room for are in the output. */
    ghost predicate Kept(output: array<byte>, s: seq<byte>, outLen: nat, i: nat)
      reads output
    {
      outLen == |s| && i == Min(outLen, output.Length) && output[..i] == s[..i]
    }

    /** Keep one more byte, if there is room. */
    method KeepByte(output: array<byte>, ghost before: seq<byte>, ghost after: seq<byte>,
                    ghost outLen: nat, i: nat, b: byte)
      returns (next: nat)
      requires Kept(output, before, outLen, i)
      requires |after| == |before| + 1 && after[..i] == before[..i]
      requires i == |before| ==> after[..i + 1] == before[..i] + [b]
      modifies output
      ensures Kept(output, after, outLen + 1, next)
      ensures forall k | next <= k < output.Length :: output[k] == old(output[k])
    {
      next := AppendByte(output, i, b);
    }

    /** Load the operands, start the engine and wait. */
    method Exponentiate(input: seq<byte>, key: Key) returns (ready: bool)
      requires Valid() && key.Valid() && |input| <= BUFFER
      modifies sram, `triggers
      ensures triggers == old(triggers) + 1 && (ready <==> delays(old(triggers)) < RETRIES)
      ensures Reversed(sram[SRAM_DST_RESULT..])
        == BE(modExp(FromBE(input), key.Exponent(), key.Modulus()), RSA_MAX_LEN)
    {
      LoadOperands(input, key.m[..key.MLen()], key.ed[..key.EdLen()]);
      Engine();
      ReversedLE(modExp(FromBE(input), key.Exponent(), key.Modulus()), RSA_MAX_LEN);
      ready := WaitReady();
    }

    method Trigger(input: seq<byte>, output: array<byte>, key: Key) returns (r: Result<nat>)
      requires Valid() && key.Valid() && output != sram && output.Length == BUFFER
      modifies sram, `triggers, output
      ensures r == if |input| > BUFFER then Err(InvalidLength)
                   else if delays(old(triggers)) >= RETRIES then Err(HardwareError)
                   else Ok(|EngineOutput(modExp, input, key)|)
      ensures r.Ok? ==> r.value <= key.MLen() && output[..r.value] == EngineOutput(modExp, input, key)
      ensures r.Ok? ==> forall k | 0 <= k < SRAM_SIZE :: sram[k] == 0
      ensures triggers == old(triggers) + (if |input| > BUFFER then 0 else 1)
    {
      if |input| > BUFFER {
        return Err(InvalidLength);
      }
      var ready := Exponentiate(input, key);
      if !ready {
        return Err(HardwareError);
      }
      EngineOutputIs(modExp, input, key);
      var outLen := ReadResult(output);
      FillRange(sram, 0, SRAM_SIZE, 0);
      r := Ok(outLen);
    }

    method PadMessage(key: Key, message: Digest) returns (em: Option<seq<byte>>)
      requires key.Valid() && message.Valid()
      ensures em.Some? <==> Signable(message, key)
      ensures em.Some? ==> em.value == Encoded(DerPrefix(message.len).value, message.Bytes(), key.MLen())
    {
      var padded := new byte[BUFFER](_ => 0);
      var pad := Pkcs1V15PadInplace(message.data[..message.len], padded, key.MLen());
      em := if pad.PadErr? then None else Some(padded[..pad.len]);
    }

    /** The signature is the engine's number in exactly as many bytes as the modulus has. */
    method Sign(key: Key, message: Digest) returns (r: Result<Signature>)
      requires Valid() && key.Valid() && message.Valid()
      modifies sram, `triggers
      ensures !Signable(message, key) ==> r == Err(InvalidLength)
      ensures Signable(message, key) && delays(old(triggers)) >= RETRIES ==> r == Err(HardwareError)
      ensures Signable(message, key) && delays(old(triggers)) < RETRIES ==>
        r.Ok? && r.value.Valid() && r.value.Bytes() == SignatureOf(modExp, message.Bytes(), key)
    {
      var em := PadMessage(key, message);
      if em.None? {
        return Err(InvalidLength);
      }
      var output := new byte[BUFFER](_ => 0);
      var out := Trigger(em.value, output, key);
      if out.Err? {
        return Err(out.error);
      }
      RightAlign(output, out.value, key.MLen());
      AlignedOutput(modExp, em.value, key);
      r := Ok(Signature(output[..], key.MLen()));
    }

    /** Move the first len bytes to the end of the first mLen and zero what is before them. */
    method RightAlign(output: array<byte>, len: nat, mLen: nat)
      requires len <= mLen <= output.Length
      modifies output
      ensures output[..mLen] == Zeros(mLen - len) + old(output[..len])
    {
      if len < mLen {
        CopyInto(output, mLen - len, output[..len]);
        FillRange(output, 0, mLen - len, 0);
      }
    }

    /** Accept a signature whose decrypted form ends in the digest. */
    method Verify(key: Key, message: Digest, signature: Signature) returns (r: Result<Signature>)
      requires Valid() && key.Valid() && message.Valid() && signature.Valid()
      modifies sram, `triggers
      ensures delays(old(triggers)) >= RETRIES ==> r == Err(HardwareError)
      ensures delays(old(triggers)) < RETRIES ==>
        r == if Accepts(modExp, signature.Bytes(), message.Bytes(), key)
             then Ok(Signature(signature.data, |EngineOutput(modExp, signature.Bytes(), key)|))
             else Err(VerificationFailed)
    {
      var output := new byte[BUFFER](_ => 0);
      var out := Trigger(signature.data[..signature.len], output, key);
      if out.Err? {
        return Err(out.error);
      }
      var len := out.value;
      var from := if len < message.len then 0 else len - message.len;
      if output[from..len] == message.data[..message.len] {
        r := Ok(Signature(signature.data, len));
      } else {
        r := Err(VerificationFailed);
      }
    }
  }

  lemma AllZeros(s: seq<byte>, lo: nat, hi: nat)
    requires lo <= hi <= |s| && forall k | lo <= k < hi :: s[k] == 0
    ensures s[lo..hi] == Zeros(hi - lo)
  {
  }

  lemma SliceSplit(s: seq<byte>, lo: nat, mid: nat, hi: nat)
    requires lo <= mid <= hi <= |s|
    ensures s[lo..hi] == s[lo..mid] + s[mid..hi]
  {
  }

  lemma PaddedOperand(s: seq<byte>, lo: nat, mid: nat, hi: nat, bytes: seq<byte>)
    requires lo <= mid <= hi <= |s| && s[lo..mid] == Reversed(bytes)
    requires forall k | mid <= k < hi :: s[k] == 0
    ensures FromLE(s[lo..hi]) == FromBE(bytes)
  {
    AllZeros(s, mid, hi);
    SliceSplit(s, lo, mid, hi);
    FromLEZeros(Reversed(bytes), hi - mid);
    FromLEOfReversed(bytes);
  }
}
