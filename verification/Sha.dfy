/** The reference side of the hash driver: the SHA-2 construction of FIPS 180-4
  * around an arbitrary compression function, and HMAC (RFC 2104) on top of it. */
module Sha {
  import opened Bits
  import opened Bytes

  /** A 32-bit word by its bytes, most significant first. */
  datatype Word = Word(b3: byte, b2: byte, b1: byte, b0: byte)

  datatype HashAlgo = SHA256 | SHA384 | SHA512 {
    function DigestSize(): nat {
      match this case SHA256 => 32 case SHA384 => 48 case SHA512 => 64
    }

    function BlockSize(): nat {
      match this case SHA256 => 64 case SHA384 => 128 case SHA512 => 128
    }

    /** Bytes of the length field that ends the padding. */
    function LengthSize(): nat {
      if BlockSize() == 64 then 8 else 16
    }

    /** The driver's table of initial values, as 32-bit words in memory order. */
    function Iv(): (ws: seq<u32>)
      ensures 4 * |ws| == IvSize()
    {
      match this
      case SHA256 => [
        0x67e6_096a, 0x85ae_67bb, 0x72f3_6e3c, 0x3af5_4fa5,
        0x7f52_0e51, 0x8c68_059b, 0xabd9_831f, 0x19cd_e05b]
      case SHA384 => [
        0x5d9d_bbcb, 0xd89e_05c1, 0x2a29_9a62, 0x07d5_7c36,
        0x5a01_5991, 0x17dd_7030, 0xd8ec_2f15, 0x3959_0ef7,
        0x6726_3367, 0x310b_c0ff, 0x874a_b48e, 0x1115_5868,
        0x0d2e_0cdb, 0xa78f_f964, 0x1d48_b547, 0xa44f_fabe]
      case SHA512 => [
        0x67e6_096a, 0x08c9_bcf3, 0x85ae_67bb, 0x3ba7_ca84,
        0x72f3_6e3c, 0x2bf8_94fe, 0x3af5_4fa5, 0xf136_1d5f,
        0x7f52_0e51, 0xd182_e6ad, 0x8c68_059b, 0x1f6c_3e2b,
        0xabd9_831f, 0x6bbd_41fb, 0x19cd_e05b, 0x7921_7e13]
    }

    /** The initial hash value H(0) of FIPS 180-4 section 5.3, four bytes to a word. */
    function InitialHash(): seq<Word> {
      match this
      case SHA256 => [
        Word(0x6a, 0x09, 0xe6, 0x67), Word(0xbb, 0x67, 0xae, 0x85),
        Word(0x3c, 0x6e, 0xf3, 0x72), Word(0xa5, 0x4f, 0xf5, 0x3a),
        Word(0x51, 0x0e, 0x52, 0x7f), Word(0x9b, 0x05, 0x68, 0x8c),
        Word(0x1f, 0x83, 0xd9, 0xab), Word(0x5b, 0xe0, 0xcd, 0x19)]
      case SHA384 => [
        Word(0xcb, 0xbb, 0x9d, 0x5d), Word(0xc1, 0x05, 0x9e, 0xd8),
        Word(0x62, 0x9a, 0x29, 0x2a), Word(0x36, 0x7c, 0xd5, 0x07),
        Word(0x91, 0x59, 0x01, 0x5a), Word(0x30, 0x70, 0xdd, 0x17),
        Word(0x15, 0x2f, 0xec, 0xd8), Word(0xf7, 0x0e, 0x59, 0x39),
        Word(0x67, 0x33, 0x26, 0x67), Word(0xff, 0xc0, 0x0b, 0x31),
        Word(0x8e, 0xb4, 0x4a, 0x87), Word(0x68, 0x58, 0x15, 0x11),
        Word(0xdb, 0x0c, 0x2e, 0x0d), Word(0x64, 0xf9, 0x8f, 0xa7),
        Word(0x47, 0xb5, 0x48, 0x1d), Word(0xbe, 0xfa, 0x4f, 0xa4)]
      case SHA512 => [
        Word(0x6a, 0x09, 0xe6, 0x67), Word(0xf3, 0xbc, 0xc9, 0x08),
        Word(0xbb, 0x67, 0xae, 0x85), Word(0x84, 0xca, 0xa7, 0x3b),
        Word(0x3c, 0x6e, 0xf3, 0x72), Word(0xfe, 0x94, 0xf8, 0x2b),
        Word(0xa5, 0x4f, 0xf5, 0x3a), Word(0x5f, 0x1d, 0x36, 0xf1),
        Word(0x51, 0x0e, 0x52, 0x7f), Word(0xad, 0xe6, 0x82, 0xd1),
        Word(0x9b, 0x05, 0x68, 0x8c), Word(0x2b, 0x3e, 0x6c, 0x1f),
        Word(0x1f, 0x83, 0xd9, 0xab), Word(0xfb, 0x41, 0xbd, 0x6b),
        Word(0x5b, 0xe0, 0xcd, 0x19), Word(0x13, 0x7e, 0x21, 0x79)]
    }

    /** Bytes of the chaining value. */
    function IvSize(): nat {
      match this case SHA256 => 32 case SHA384 => 64 case SHA512 => 64
    }
  }

  /** Byte j of a word, counting from the least significant. */
  function ByteOf(w: u32, j: nat): byte {
    if j == 0 then w % 256
    else if j == 1 then w / 256 % 256
    else if j == 2 then w / 256 / 256 % 256
    else w / 256 / 256 / 256
  }

  /** The chaining value the driver starts from: its table read as bytes of
    * little-endian memory. */
  function IvBytes(a: HashAlgo): (s: seq<byte>)
    ensures |s| == a.IvSize()
  {
    seq(a.IvSize(), i requires 0 <= i < a.IvSize() => ByteOf(a.Iv()[i / 4], i % 4))
  }

  /** v is w with its bytes in the opposite order. */
  predicate Swaps(v: u32, w: Word) {
    v == w.b3 + 256 * (w.b2 + 256 * (w.b1 + 256 * w.b0))
  }

  lemma SwappedBytes(v: u32, w: Word)
    requires Swaps(v, w)
    ensures ByteOf(v, 0) == w.b3 && ByteOf(v, 1) == w.b2 && ByteOf(v, 2) == w.b1 && ByteOf(v, 3) == w.b0
  {
    ByteDigit(w.b3, w.b2 + 256 * (w.b1 + 256 * w.b0));
    ByteDigit(w.b2, w.b1 + 256 * w.b0);
    ByteDigit(w.b1, w.b0);
  }

  /** The byte-swapped tables lay H(0) out in memory big-endian, which is how the engine reads it. */
  lemma IvIsInitialHash(a: HashAlgo, k: nat)
    requires k < |a.Iv()|
    ensures |a.InitialHash()| == |a.Iv()|
    ensures
      var iv, w := IvBytes(a), a.InitialHash()[k];
      iv[4 * k] == w.b3 && iv[4 * k + 1] == w.b2 && iv[4 * k + 2] == w.b1 && iv[4 * k + 3] == w.b0
  {
    IvIsSwapped(a, k);
    SwappedBytes(a.Iv()[k], a.InitialHash()[k]);
    IvByteAt(a, k, 0);
    IvByteAt(a, k, 1);
    IvByteAt(a, k, 2);
    IvByteAt(a, k, 3);
  }

  lemma IvByteAt(a: HashAlgo, k: nat, j: nat)
    requires k < |a.Iv()| && j < 4
    ensures IvBytes(a)[4 * k + j] == ByteOf(a.Iv()[k], j)
  {
    DivModUnique(4 * k + j, 4, k, j);
  }

  lemma IvIsSwapped(a: HashAlgo, k: nat)
    requires k < |a.Iv()|
    ensures |a.InitialHash()| == |a.Iv()| && Swaps(a.Iv()[k], a.InitialHash()[k])
  {
  }

  /** A compression function: chaining value and block to the next chaining value. */
  type Compressor = f: (seq<byte>, seq<byte>) -> seq<byte> |
    forall cv, b :: |f(cv, b)| == |cv| witness (cv, b) => cv

  /** What is left of n bytes once the whole blocks are taken off. */
  function Residue(a: HashAlgo, n: nat): (r: nat)
    ensures r < a.BlockSize() && r <= n
  {
    if n < a.BlockSize() then n else Residue(a, n - a.BlockSize())
  }

  lemma {:induction false} ResidueIsMod(a: HashAlgo, n: nat)
    ensures Residue(a, n) == if a.BlockSize() == 64 then n % 64 else n % 128
  {
    if n >= a.BlockSize() {
      ResidueIsMod(a, n - a.BlockSize());
      if a.BlockSize() == 64 {
        assert (n - 64) % 64 == n % 64;
      } else {
        assert (n - 128) % 128 == n % 128;
      }
    }
  }

  lemma {:induction false} ResidueAdd(a: HashAlgo, m: nat, n: nat)
    requires Residue(a, m) == 0
    ensures Residue(a, m + n) == Residue(a, n)
  {
    if m >= a.BlockSize() { ResidueAdd(a, m - a.BlockSize(), n); }
  }

  lemma {:induction false} WholePart(a: HashAlgo, n: nat)
    ensures Residue(a, n - Residue(a, n)) == 0
  {
    if n >= a.BlockSize() { WholePart(a, n - a.BlockSize()); }
  }

  /** The chaining value after all the whole blocks of msg. */
  function Fold(f: Compressor, a: HashAlgo, cv: seq<byte>, msg: seq<byte>): (r: seq<byte>)
    ensures |r| == |cv|
    decreases |msg|
  {
    var bs := a.BlockSize();
    if |msg| < bs then cv else Fold(f, a, f(cv, msg[..bs]), msg[bs..])
  }

  /** Folding over whole blocks can be interrupted at any block boundary. */
  lemma {:induction false} FoldAppend(f: Compressor, a: HashAlgo, cv: seq<byte>, x: seq<byte>, y: seq<byte>)
    requires Residue(a, |x|) == 0
    ensures Fold(f, a, cv, x + y) == Fold(f, a, Fold(f, a, cv, x), y)
    decreases |x|
  {
    var bs := a.BlockSize();
    if |x| < bs {
      assert |x| == 0;
      assert x + y == y;
    } else {
      assert (x + y)[..bs] == x[..bs] && (x + y)[bs..] == x[bs..] + y;
      FoldAppend(f, a, f(cv, x[..bs]), x[bs..], y);
    }
  }

  lemma FoldNothing(f: Compressor, a: HashAlgo, cv: seq<byte>)
    ensures Fold(f, a, cv, []) == cv
  {
  }

  /** One more block is one more compression. */
  lemma FoldOneMore(f: Compressor, a: HashAlgo, cv: seq<byte>, x: seq<byte>, b: seq<byte>)
    requires Residue(a, |x|) == 0 && |b| == a.BlockSize()
    ensures Fold(f, a, cv, x + b) == f(Fold(f, a, cv, x), b)
  {
    FoldAppend(f, a, cv, x, b);
    assert b[..|b|] == b && b[|b|..] == [];
    FoldNothing(f, a, f(Fold(f, a, cv, x), b));
  }

  /** The chaining values of FIPS 180-4 section 6: from the initial hash value, one compression
    * for each block of the padded message. */
  ghost predicate IsChain(f: Compressor, a: HashAlgo, padded: seq<byte>, h: seq<seq<byte>>) {
    && |h| > 0 && h[0] == IvBytes(a) && |padded| == a.BlockSize() * (|h| - 1)
    && forall i: nat | i < |h| - 1 :: IsLink(f, a, padded, h, i)
  }

  ghost predicate IsLink(f: Compressor, a: HashAlgo, padded: seq<byte>, h: seq<seq<byte>>, i: nat) {
    var at := a.BlockSize() * i;
    && i + 1 < |h| && at + a.BlockSize() <= |padded|
    && h[i + 1] == f(h[i], padded[at..at + a.BlockSize()])
  }

  lemma {:induction false} FoldIsChain(f: Compressor, a: HashAlgo, x: seq<byte>) returns (h: seq<seq<byte>>)
    requires Residue(a, |x|) == 0
    ensures IsChain(f, a, x, h) && h[|h| - 1] == Fold(f, a, IvBytes(a), x)
    decreases |x|
  {
    if x == [] {
      h := [IvBytes(a)];
    } else {
      var init, b := x[..|x| - a.BlockSize()], x[|x| - a.BlockSize()..];
      var g := FoldIsChain(f, a, init);
      assert x == init + b;
      FoldOneMore(f, a, IvBytes(a), init, b);
      h := ChainGrows(f, a, init, b, g);
    }
  }

  lemma ChainGrows(f: Compressor, a: HashAlgo, x: seq<byte>, b: seq<byte>, g: seq<seq<byte>>)
    returns (h: seq<seq<byte>>)
    requires IsChain(f, a, x, g) && |b| == a.BlockSize()
    ensures h == g + [f(g[|g| - 1], b)] && IsChain(f, a, x + b, h)
  {
    h := g + [f(g[|g| - 1], b)];
    forall i: nat | i < |h| - 1
      ensures IsLink(f, a, x + b, h, i)
    {
      var at := a.BlockSize() * i;
      if i < |g| - 1 {
        assert IsLink(f, a, x, g, i);
        assert (x + b)[at..at + a.BlockSize()] == x[at..at + a.BlockSize()];
      } else {
        assert (x + b)[at..at + a.BlockSize()] == b;
      }
    }
  }

  /** The one-shot hash is the last chaining value of the padded message, cut to the digest. */
  lemma HashIsChain(f: Compressor, a: HashAlgo, msg: seq<byte>) returns (h: seq<seq<byte>>)
    ensures IsChain(f, a, msg + Padding(a, |msg|), h)
    ensures |h[|h| - 1]| >= a.DigestSize() && Hash(f, a, msg) == h[|h| - 1][..a.DigestSize()]
    ensures a.DigestSize() == match a case SHA256 => 32 case SHA384 => 48 case SHA512 => 64
  {
    PaddingFillsBlock(a, |msg|);
    h := FoldIsChain(f, a, msg + Padding(a, |msg|));
  }

  /** Bytes short of a block do not reach the chaining value. */
  lemma FoldTail(f: Compressor, a: HashAlgo, cv: seq<byte>, x: seq<byte>, t: seq<byte>)
    requires Residue(a, |x|) == 0 && |t| < a.BlockSize()
    ensures Fold(f, a, cv, x + t) == Fold(f, a, cv, x)
  {
    FoldAppend(f, a, cv, x, t);
  }

  /** The bytes of x that do not fill a block. */
  function Held(a: HashAlgo, x: seq<byte>): (t: seq<byte>)
    ensures |t| == Residue(a, |x|)
  {
    x[|x| - Residue(a, |x|)..]
  }

  /** Whatever follows whole blocks and is shorter than a block is what is held. */
  lemma HeldIsTail(a: HashAlgo, whole: seq<byte>, t: seq<byte>)
    requires Residue(a, |whole|) == 0 && |t| < a.BlockSize()
    ensures Held(a, whole + t) == t
  {
    ResidueAdd(a, |whole|, |t|);
  }

  /** x without its held bytes. */
  function Blocks(a: HashAlgo, x: seq<byte>): (b: seq<byte>)
    ensures b + Held(a, x) == x
  {
    x[..|x| - Residue(a, |x|)]
  }

  lemma FoldBlocks(f: Compressor, a: HashAlgo, cv: seq<byte>, x: seq<byte>)
    ensures Residue(a, |Blocks(a, x)|) == 0
    ensures Fold(f, a, cv, x) == Fold(f, a, cv, Blocks(a, x))
  {
    WholePart(a, |x|);
    FoldTail(f, a, cv, Blocks(a, x), Held(a, x));
  }

  /** A short update only lengthens the held bytes. */
  lemma AbsorbShort(f: Compressor, a: HashAlgo, cv: seq<byte>, x: seq<byte>, y: seq<byte>)
    requires |Held(a, x)| + |y| < a.BlockSize()
    ensures Fold(f, a, cv, x + y) == Fold(f, a, cv, x)
    ensures Held(a, x + y) == Held(a, x) + y
  {
    var whole, t := Blocks(a, x), Held(a, x) + y;
    assert x + y == whole + t;
    FoldBlocks(f, a, cv, x);
    HeldIsTail(a, whole, t);
    FoldTail(f, a, cv, whole, t);
  }

  /** A long update runs the engine on the held bytes and a prefix of the new ones, and
    * holds the rest. */
  lemma AbsorbBlocks(f: Compressor, a: HashAlgo, cv: seq<byte>, x: seq<byte>, y: seq<byte>, n: nat)
    requires n <= |y| && |y| - n < a.BlockSize()
    requires Residue(a, |Held(a, x)| + n) == 0
    ensures Fold(f, a, cv, x + y) == Fold(f, a, Fold(f, a, cv, x), Held(a, x) + y[..n])
    ensures Held(a, x + y) == y[n..]
  {
    var whole, blocks, rest := Blocks(a, x), Held(a, x) + y[..n], y[n..];
    assert x + y == (whole + blocks) + rest;
    FoldBlocks(f, a, cv, x);
    ResidueAdd(a, |whole|, |blocks|);
    HeldIsTail(a, whole + blocks, rest);
    FoldTail(f, a, cv, whole + blocks, rest);
    FoldAppend(f, a, cv, whole, blocks);
  }

  /** Zero bytes between the 0x80 marker and the length field for an n-byte message. */
  function ZeroCount(a: HashAlgo, n: nat): (z: nat)
    ensures z < a.BlockSize()
  {
    var index, field := Residue(a, n), a.BlockSize() - a.LengthSize();
    if index < field then field - 1 - index else a.BlockSize() + field - 1 - index
  }

  /** The length field: the message length in bits, truncated to the field. */
  function LengthField(a: HashAlgo, n: nat): (s: seq<byte>)
    ensures |s| == a.LengthSize()
  {
    BE(8 * n, a.LengthSize())
  }

  /** The padding of an n-byte message. */
  function Padding(a: HashAlgo, n: nat): (p: seq<byte>)
    ensures |p| == 1 + ZeroCount(a, n) + a.LengthSize()
  {
    PaddingAfter(a, n, n)
  }

  /** The padding of an n-byte message, computed from the bytes still pending. */
  function PaddingAfter(a: HashAlgo, pending: nat, n: nat): (p: seq<byte>)
    ensures |p| == 1 + ZeroCount(a, pending) + a.LengthSize()
  {
    [0x80] + Zeros(ZeroCount(a, pending)) + LengthField(a, n)
  }

  /** FIPS 180-4 sections 5.1.1 and 5.1.2 on whole bytes: the bit 1, the fewest zero
    * bits that make the length come out, and the message length in bits. */
  ghost predicate IsFipsPadding(a: HashAlgo, n: nat, p: seq<byte>) {
    exists z: nat :: IsFipsPaddingWith(a, n, p, z)
  }

  ghost predicate IsFipsPaddingWith(a: HashAlgo, n: nat, p: seq<byte>, z: nat) {
    && |p| == 1 + z + a.LengthSize()
    && p[0] == 0x80
    && (forall i | 1 <= i < 1 + z :: p[i] == 0)
    && FromBE(p[1 + z..]) == 8 * n
    && FillsBlock(a, n, z)
    && (forall y: nat | y < z :: !FillsBlock(a, n, y))
  }

  ghost predicate FillsBlock(a: HashAlgo, n: nat, z: nat) {
    Residue(a, n + 1 + z + a.LengthSize()) == 0
  }

  /** First message length, in bytes, whose bit length no longer fits the length field. */
  function LengthLimit(a: HashAlgo): nat {
    Pow2(8 * a.LengthSize() - 3)
  }

  /** The padding the driver appends is the FIPS padding exactly while the bit length fits. */
  lemma PaddingIsFips(a: HashAlgo, n: nat)
    ensures IsFipsPadding(a, n, Padding(a, n)) <==> n < LengthLimit(a)
  {
    BitLengthFits(a, n);
    if n < LengthLimit(a) {
      FipsPaddingWhenFits(a, n);
    }
    if IsFipsPadding(a, n, Padding(a, n)) {
      var z :| IsFipsPaddingWith(a, n, Padding(a, n), z);
      FromBEBound(Padding(a, n)[1 + z..]);
    }
  }

  lemma FipsPaddingWhenFits(a: HashAlgo, n: nat)
    requires 8 * n < Pow2(8 * a.LengthSize())
    ensures IsFipsPadding(a, n, Padding(a, n))
  {
    var z, p := ZeroCount(a, n), Padding(a, n);
    assert p[1 + z..] == LengthField(a, n);
    FromBEOfBE(8 * n, a.LengthSize());
    ZeroCountIsLeast(a, n);
    assert forall i | 1 <= i < 1 + z :: p[i] == 0;
    assert IsFipsPaddingWith(a, n, p, z);
  }

  lemma ZeroCountIsLeast(a: HashAlgo, n: nat)
    ensures FillsBlock(a, n, ZeroCount(a, n))
    ensures forall y: nat | y < ZeroCount(a, n) :: !FillsBlock(a, n, y)
  {
    PaddingFillsBlock(a, n);
    forall y: nat | y < ZeroCount(a, n)
      ensures !FillsBlock(a, n, y)
    {
      FewestZeros(a, n, y);
    }
  }

  /** A padded message is a whole number of blocks. */
  lemma PaddingFillsBlock(a: HashAlgo, n: nat)
    ensures Residue(a, n + 1 + ZeroCount(a, n) + a.LengthSize()) == 0
  {
    var whole, rest := n - Residue(a, n), Residue(a, n) + 1 + ZeroCount(a, n) + a.LengthSize();
    assert rest == a.BlockSize() || rest == 2 * a.BlockSize();
    WholePart(a, n);
    ResidueAdd(a, whole, rest);
  }

  lemma BitLengthFits(a: HashAlgo, n: nat)
    ensures 8 * n < Pow2(8 * a.LengthSize()) <==> n < LengthLimit(a)
  {
    Pow2Add(3, 8 * a.LengthSize() - 3);
    Pow2Values();
  }

  lemma FewestZeros(a: HashAlgo, n: nat, y: nat)
    requires y < ZeroCount(a, n)
    ensures !FillsBlock(a, n, y)
  {
    var whole, rest := n - Residue(a, n), Residue(a, n) + 1 + y + a.LengthSize();
    assert 0 < rest < 2 * a.BlockSize() && rest != a.BlockSize();
    WholePart(a, n);
    ResidueAdd(a, whole, rest);
  }

  /** The one-shot hash of a message. */
  function Hash(f: Compressor, a: HashAlgo, msg: seq<byte>): (d: seq<byte>)
    ensures |d| == a.DigestSize()
  {
    Fold(f, a, IvBytes(a), msg + Padding(a, |msg|))[..a.DigestSize()]
  }

  function XorBytes(s: seq<byte>, b: byte): (r: seq<byte>)
    ensures |r| == |s|
  {
    seq(|s|, i requires 0 <= i < |s| => XorByte(s[i], b))
  }

  function XorByte(x: byte, y: byte): (r: byte)
    ensures forall i: nat | i < 8 :: Bit(r, i) == (Bit(x, i) != Bit(y, i))
  {
    Pow2Values();
    XorBound(x, y, 8);
    XorBits(x, y);
    Xor(x, y)
  }

  lemma XorBits(x: nat, y: nat)
    ensures forall i: nat :: Bit(Xor(x, y), i) == (Bit(x, i) != Bit(y, i))
  {
    forall i: nat
      ensures Bit(Xor(x, y), i) == (Bit(x, i) != Bit(y, i))
    {
      BitXor(x, y, i);
    }
  }

  /** p is k0 with the bits that m has inverted in every byte. */
  ghost predicate IsPad(p: seq<byte>, k0: seq<byte>, m: byte) {
    |p| == |k0| && forall j: nat, i: nat | j < |p| && i < 8 :: Bit(p[j], i) == (Bit(k0[j], i) != Bit(m, i))
  }

  lemma XorBytesIsPad(k0: seq<byte>, m: byte)
    ensures IsPad(XorBytes(k0, m), k0, m)
  {
  }

  function ZeroPadded(s: seq<byte>, n: nat): (r: seq<byte>)
    requires |s| <= n
    ensures |r| == n
  {
    s + Zeros(n - |s|)
  }

  /** RFC 2104 section 2, given the block-sized key K0. */
  function MacWith(f: Compressor, a: HashAlgo, k0: seq<byte>, msg: seq<byte>): seq<byte> {
    Hash(f, a, XorBytes(k0, 0x5c) + Hash(f, a, XorBytes(k0, 0x36) + msg))
  }

  /** K0 of RFC 2104: keys longer than a block are hashed first, then zero-padded. */
  function Rfc2104Key(f: Compressor, a: HashAlgo, key: seq<byte>): (k0: seq<byte>)
    ensures |k0| == a.BlockSize()
  {
    ZeroPadded(if |key| > a.BlockSize() then Hash(f, a, key) else key, a.BlockSize())
  }

  function Hmac(f: Compressor, a: HashAlgo, key: seq<byte>, msg: seq<byte>): seq<byte> {
    MacWith(f, a, Rfc2104Key(f, a, key), msg)
  }
}
