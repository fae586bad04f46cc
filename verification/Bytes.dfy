/** Machine words, their byte encodings, and the slice operations the drivers use. */
module Bytes {
  import opened Bits

  type byte = x: int | 0 <= x < 0x100
  type u32 = x: int | 0 <= x < 0x1_0000_0000
  type u64 = x: int | 0 <= x < 0x1_0000_0000_0000_0000

  datatype Option<+T> = None | Some(value: T)

  function Max(a: int, b: int): int { if a < b then b else a }

  function Min(a: int, b: int): int { if a < b then a else b }

  /** The k low bytes of n, most significant first. */
  function BE(n: nat, k: nat): (s: seq<byte>)
    ensures |s| == k
    decreases n, k
  {
    if k == 0 then [] else BE(n / 256, k - 1) + [n % 256]
  }

  /** The k low bytes of n, least significant first. */
  function LE(n: nat, k: nat): (s: seq<byte>)
    ensures |s| == k
    decreases n, k
  {
    if k == 0 then [] else [n % 256] + LE(n / 256, k - 1)
  }

  function FromBE(s: seq<byte>): nat {
    if s == [] then 0 else 256 * FromBE(s[..|s| - 1]) + s[|s| - 1]
  }

  function FromLE(s: seq<byte>): nat {
    if s == [] then 0 else s[0] + 256 * FromLE(s[1..])
  }

  lemma Pow256(k: nat)
    requires k > 0
    ensures Pow2(8 * k) == 256 * Pow2(8 * (k - 1))
  {
    var m: nat := 8 * (k - 1);
    Pow2Add(8, m);
    ByteValues();
  }

  lemma ByteValues()
    ensures Pow2(8) == 256
  {
    Pow2Values();
  }

  lemma {:induction false} FromBEBound(s: seq<byte>)
    ensures FromBE(s) < Pow2(8 * |s|)
  {
    if s != [] {
      FromBEBound(s[..|s| - 1]);
      Pow256(|s|);
    }
  }

  lemma {:induction false} FromLEBound(s: seq<byte>)
    ensures FromLE(s) < Pow2(8 * |s|)
  {
    if s != [] {
      FromLEBound(s[1..]);
      Pow256(|s|);
    }
  }

  lemma ByteDigit(b: byte, n: nat)
    ensures (b + 256 * n) / 256 == n && (b + 256 * n) % 256 == b
  {
  }

  /** Decoding then encoding gives the bytes back. */
  lemma {:induction false} BEOfFromBE(s: seq<byte>)
    ensures BE(FromBE(s), |s|) == s
  {
    if s != [] {
      var init, last := s[..|s| - 1], s[|s| - 1];
      BEOfFromBE(init);
      ByteDigit(last, FromBE(init));
      assert s == init + [last];
    }
  }

  lemma {:induction false} LEOfFromLE(s: seq<byte>)
    ensures LE(FromLE(s), |s|) == s
  {
    if s != [] {
      LEOfFromLE(s[1..]);
      ByteDigit(s[0], FromLE(s[1..]));
      assert s == [s[0]] + s[1..];
    }
  }

  /** Encoding then decoding gives the number back when it fits. */
  lemma {:induction false} FromBEOfBE(n: nat, k: nat)
    requires n < Pow2(8 * k)
    ensures FromBE(BE(n, k)) == n
  {
    if k > 0 {
      Pow256(k);
      FromBEOfBE(n / 256, k - 1);
      assert BE(n, k)[..k - 1] == BE(n / 256, k - 1);
    }
  }

  lemma {:induction false} FromLEOfLE(n: nat, k: nat)
    requires n < Pow2(8 * k)
    ensures FromLE(LE(n, k)) == n
  {
    if k > 0 {
      Pow256(k);
      FromLEOfLE(n / 256, k - 1);
      assert LE(n, k)[1..] == LE(n / 256, k - 1);
    }
  }

  /** An encoding ignores multiples of 256^k. */
  lemma {:induction false} BEPeriodic(n: nat, q: nat, k: nat)
    ensures BE(n + q * Pow2(8 * k), k) == BE(n, k)
  {
    if k > 0 {
      Pow256(k);
      var m := q * Pow2(8 * (k - 1));
      assert q * Pow2(8 * k) == 256 * m;
      assert (n + 256 * m) / 256 == n / 256 + m;
      BEPeriodic(n / 256, q, k - 1);
    }
  }

  /** Two adjacent fields encode as one wide field. */
  lemma {:induction false} BEAppend(h: nat, l: nat, j: nat, k: nat)
    requires l < Pow2(8 * k)
    ensures BE(h * Pow2(8 * k) + l, j + k) == BE(h, j) + BE(l, k)
    decreases k
  {
    if k == 0 {
      assert BE(h, j) + BE(l, 0) == BE(h, j);
    } else {
      Pow256(k);
      var m := h * Pow2(8 * (k - 1));
      assert h * Pow2(8 * k) == 256 * m;
      assert (256 * m + l) / 256 == m + l / 256 && (256 * m + l) % 256 == l % 256;
      BEAppend(h, l / 256, j, k - 1);
      assert BE(h, j) + (BE(l / 256, k - 1) + [l % 256]) == (BE(h, j) + BE(l / 256, k - 1)) + [l % 256];
    }
  }

  /** Reversing the bytes turns one byte order into the other. */
  function Reversed<T>(s: seq<T>): (r: seq<T>)
    ensures |r| == |s|
    ensures forall i | 0 <= i < |s| :: r[i] == s[|s| - 1 - i]
  {
    if s == [] then [] else Reversed(s[1..]) + [s[0]]
  }

  lemma {:induction false} FromLEOfReversed(s: seq<byte>)
    ensures FromLE(Reversed(s)) == FromBE(s)
  {
    if s != [] {
      var init, last := s[..|s| - 1], s[|s| - 1];
      assert Reversed(s) == [last] + Reversed(init);
      FromLEOfReversed(init);
    }
  }

  function Zeros(n: nat): (s: seq<byte>)
    ensures |s| == n
    ensures forall i | 0 <= i < n :: s[i] == 0
  {
    seq(n, _ => 0)
  }

  /** s with its elements from off on replaced by t. */
  function Splice<T>(s: seq<T>, off: nat, t: seq<T>): (r: seq<T>)
    requires off + |t| <= |s|
    ensures |r| == |s|
    ensures r[off..off + |t|] == t
    ensures forall i | 0 <= i < |s| && !(off <= i < off + |t|) :: r[i] == s[i]
  {
    s[..off] + t + s[off + |t|..]
  }

  /** Three adjacent writes, read back together with what precedes them. */
  lemma SplicePrefix<T>(s: seq<T>, off: nat, x: T, t: seq<T>, u: seq<T>)
    requires off + 1 + |t| + |u| <= |s|
    ensures Splice(Splice(s[off := x], off + 1, t), off + 1 + |t|, u)[..off + 1 + |t| + |u|]
      == s[..off] + ([x] + t + u)
  {
  }

  lemma SpliceAdjacent<T>(s: seq<T>, off: nat, t: seq<T>, u: seq<T>)
    requires off + |t| + |u| <= |s|
    ensures Splice(Splice(s, off, t), off + |t|, u) == Splice(s, off, t + u)
  {
  }

  /** `dst[off..off + src.len()].copy_from_slice(src)` */
  method CopyInto<T>(dst: array<T>, off: nat, src: seq<T>)
    requires off + |src| <= dst.Length
    modifies dst
    ensures dst[..] == Splice(old(dst[..]), off, src)
  {
    forall i | 0 <= i < |src| {
      dst[off + i] := src[i];
    }
  }

  /** `dst[off..off + n].fill(v)` */
  method FillRange<T>(dst: array<T>, off: nat, n: nat, v: T)
    requires off + n <= dst.Length
    modifies dst
    ensures dst[..] == Splice(old(dst[..]), off, seq(n, _ => v))
  {
    forall i | off <= i < off + n {
      dst[i] := v;
    }
  }
}
