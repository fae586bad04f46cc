/** HMAC on the HACE engine (src/hmac.rs). */
module Hmac {
  import opened Bytes
  import opened Sha
  import opened Hace

  const KEY_SIZE: nat := 128

  /** The block-sized key the driver works with: only keys longer than its 128-byte key
    * buffer are hashed, and only the first block of the buffer is used. */
  function DriverKey(f: Compressor, a: HashAlgo, key: seq<byte>): (k0: seq<byte>)
    ensures |k0| == a.BlockSize()
  {
    ZeroPadded(if |key| > KEY_SIZE then Hash(f, a, key) else key, KEY_SIZE)[..a.BlockSize()]
  }

  /** Keys longer than a block that still fit the key buffer. */
  predicate TruncatedKey(a: HashAlgo, n: nat) {
    a.BlockSize() < n <= KEY_SIZE
  }

  lemma DriverKeyIsRfc(f: Compressor, a: HashAlgo, key: seq<byte>)
    requires !TruncatedKey(a, |key|)
    ensures DriverKey(f, a, key) == Rfc2104Key(f, a, key)
  {
  }

  /** The driver derives the RFC 2104 key for every key of n bytes, unless n is in the gap
    * between the block and the key buffer; there it truncates where the RFC hashes. */
  lemma DriverKeyExact(f: Compressor, a: HashAlgo, n: nat)
    ensures (forall key: seq<byte> | |key| == n :: DriverKey(f, a, key) == Rfc2104Key(f, a, key))
      <==> !TruncatedKey(a, n)
  {
    if TruncatedKey(a, n) {
      var key: seq<byte> := seq(n, _ => 1);
      assert DriverKey(f, a, key)[a.BlockSize() - 1] == 1;
      assert Rfc2104Key(f, a, key)[a.BlockSize() - 1] == 0;
    } else {
      forall key: seq<byte> | |key| == n
        ensures DriverKey(f, a, key) == Rfc2104Key(f, a, key)
      {
        DriverKeyIsRfc(f, a, key);
      }
    }
  }

  /** The driver's own key types are as long as the digest, so their keys are never truncated. */
  lemma OwnKeysAreRfc(f: Compressor, a: HashAlgo, key: seq<byte>)
    requires |key| == a.DigestSize()
    ensures DriverKey(f, a, key) == Rfc2104Key(f, a, key) == key + Zeros(a.BlockSize() - |key|)
  {
    DriverKeyIsRfc(f, a, key);
  }

  /** Whether a message of n bytes behind a block fits the 256-byte buffer with its padding. */
  predicate Fits(a: HashAlgo, n: nat) {
    a.BlockSize() + n + |Padding(a, a.BlockSize() + n)| <= BUFFER_SIZE
  }

  /** The longest message the buffer takes: 183 bytes, or 111 for 128-byte blocks. */
  lemma FitsExactly(a: HashAlgo, n: nat)
    ensures Fits(a, n) <==> n <= if a.BlockSize() == 64 then 183 else 111
  {
    PaddedFits(a, a.BlockSize() + n);
  }

  /** The longest string to hash, such as a long key: 247 bytes, or 239. */
  lemma PaddedFits(a: HashAlgo, n: nat)
    ensures n + |Padding(a, n)| <= BUFFER_SIZE <==> n <= if a.BlockSize() == 64 then 247 else 239
  {
    ResidueIsMod(a, n);
  }

  class MacContext {
    const controller: HaceController
    // the key the context was made with
    ghost const macKey: seq<byte>

    /** The pads hold K0 xor ipad and K0 xor opad. */
    ghost predicate Ready()
      reads this, controller, controller.ipad, controller.opad
    {
      var c := controller;
      var k0 := DriverKey(c.compress(c.algo), c.algo, macKey);
      && c.Configured() && c.digcnt[1] == 0
      && c.ipad[..c.blockSize] == XorBytes(k0, 0x36)
      && c.opad[..c.blockSize] == XorBytes(k0, 0x5c)
    }

    constructor (controller: HaceController, a: HashAlgo, key: seq<byte>)
      requires controller.Shape()
      requires |key| > KEY_SIZE ==> |key| + |Padding(a, |key|)| <= BUFFER_SIZE
      modifies controller.Memory()
      ensures this.controller == controller && macKey == key
      ensures Ready() && controller.algo == a
      ensures
        var k0 := DriverKey(controller.compress(a), a, key);
        && controller.blockSize == |k0| <= controller.ipad.Length && |k0| <= controller.opad.Length
        && IsPad(controller.ipad[..|k0|], k0, 0x36) && IsPad(controller.opad[..|k0|], k0, 0x5c)
    {
      this.controller := controller;
      this.macKey := key;
      new;
      var c := controller;
      ResetContext(c, a);
      if |key| > KEY_SIZE {
        c.HashKey(key);
      } else {
        CopyInto(c.key, 0, key);
        CopyInto(c.ipad, 0, key);
        CopyInto(c.opad, 0, key);
        c.keyLen := |key|;
      }
      XorPads(c, DriverKey(c.compress(a), a, key));
      XorBytesIsPad(DriverKey(c.compress(a), a, key), 0x36);
      XorBytesIsPad(DriverKey(c.compress(a), a, key), 0x5c);
    }

    /** Compute the MAC of input.  Every call starts over, so after several calls the
      * digest holds the MAC of the last input. */
    method Update(input: seq<byte>)
      requires Ready() && Fits(controller.algo, |input|)
      modifies controller, controller.buffer, controller.digest
      ensures Ready() && controller.algo == old(controller.algo)
      ensures controller.ipad[..] == old(controller.ipad[..]) && controller.opad[..] == old(controller.opad[..])
      ensures
        var f, a, n := controller.compress(controller.algo), controller.algo, controller.algo.BlockSize();
        controller.digest[..a.DigestSize()]
          == Hash(f, a, controller.opad[..n] + Hash(f, a, controller.ipad[..n] + input))
      ensures controller.digest[..controller.algo.DigestSize()]
        == MacWith(controller.compress(controller.algo), controller.algo,
                   DriverKey(controller.compress(controller.algo), controller.algo, macKey), input)
      ensures !TruncatedKey(controller.algo, |macKey|) ==>
        controller.digest[..controller.algo.DigestSize()]
        == Hmac(controller.compress(controller.algo), controller.algo, macKey, input)
    {
      ghost var k0 := DriverKey(controller.compress(controller.algo), controller.algo, macKey);
      RunMac(controller, k0, input);
      assert controller.ipad[..] == old(controller.ipad[..]);
      assert controller.opad[..] == old(controller.opad[..]);
      if !TruncatedKey(controller.algo, |macKey|) {
        DriverKeyIsRfc(controller.compress(controller.algo), controller.algo, macKey);
      }
    }

    /** The digest; buffer, digest and counters are cleared, key and pads stay. */
    method Finalize() returns (output: seq<byte>)
      requires controller.Shape()
      modifies controller, controller.buffer, controller.digest
      ensures output == old(controller.digest[..controller.algo.DigestSize()])
      ensures controller.Shape() && controller.bufcnt == 0
      ensures controller.digest[..] == Zeros(64) && controller.buffer[..] == Zeros(BUFFER_SIZE)
      ensures controller.key[..] == old(controller.key[..])
      ensures controller.ipad[..] == old(controller.ipad[..]) && controller.opad[..] == old(controller.opad[..])
    {
      output := controller.digest[..controller.algo.DigestSize()];
      controller.CleanupContext();
    }
  }

  method ResetContext(c: HaceController, a: HashAlgo)
    requires c.Shape()
    modifies c.Memory()
    ensures c.Configured() && c.algo == a && c.digcnt[1] == 0
    ensures c.ipad[..] == Zeros(KEY_SIZE) && c.opad[..] == Zeros(KEY_SIZE) && c.key[..] == Zeros(KEY_SIZE)
  {
    c.Init(a);
    FillRange(c.buffer, 0, BUFFER_SIZE, 0);
    FillRange(c.digest, 0, 64, 0);
    FillRange(c.ipad, 0, KEY_SIZE, 0);
    FillRange(c.opad, 0, KEY_SIZE, 0);
    FillRange(c.key, 0, KEY_SIZE, 0);
  }

  method XorPads(c: HaceController, ghost k0: seq<byte>)
    requires c.Configured() && |k0| == c.blockSize
    requires c.ipad[..c.blockSize] == k0 && c.opad[..c.blockSize] == k0
    modifies c.ipad, c.opad
    ensures c.ipad[..c.blockSize] == XorBytes(k0, 0x36)
    ensures c.opad[..c.blockSize] == XorBytes(k0, 0x5c)
  {
    for i := 0 to c.blockSize
      invariant forall j | 0 <= j < i :: c.ipad[j] == XorByte(k0[j], 0x36) && c.opad[j] == XorByte(k0[j], 0x5c)
      invariant forall j | i <= j < c.blockSize :: c.ipad[j] == k0[j] && c.opad[j] == k0[j]
    {
      c.ipad[i] := XorByte(c.ipad[i], 0x36);
      c.opad[i] := XorByte(c.opad[i], 0x5c);
    }
  }

  /** The inner run, then the outer run on its digest. */
  method RunMac(c: HaceController, ghost k0: seq<byte>, input: seq<byte>)
    requires c.Configured() && c.digcnt[1] == 0 && Fits(c.algo, |input|)
    requires |k0| == c.blockSize
    requires c.ipad[..c.blockSize] == XorBytes(k0, 0x36)
    requires c.opad[..c.blockSize] == XorBytes(k0, 0x5c)
    modifies c`bufcnt, c`digcnt, c`command, c.buffer, c.digest
    ensures c.Configured() && c.digcnt[1] == 0
    ensures c.digest[..c.algo.DigestSize()] == MacWith(c.compress(c.algo), c.algo, k0, input)
  {
    UseBuffer(c);
    var inner := HashBehindPad(c, c.ipad, XorBytes(k0, 0x36), input);
    FitsExactly(c.algo, |inner|);
    assert c.opad[..c.blockSize] == XorBytes(k0, 0x5c);
    var outer := HashBehindPad(c, c.opad, XorBytes(k0, 0x5c), inner);
  }

  /** Hash the buffer, not a scatter-gather list. */
  method UseBuffer(c: HaceController)
    requires c.Configured()
    modifies c`command
    ensures c.Configured() && c.command & HACE_SG_EN == 0
  {
    ClearSg(c.command);
    c.command := c.command & !HACE_SG_EN;
  }

  /** H(pad || msg), left in the digest. */
  method HashBehindPad(c: HaceController, pad: array<byte>, ghost padBytes: seq<byte>, msg: seq<byte>)
    returns (d: seq<byte>)
    requires c.Configured() && c.digcnt[1] == 0 && Fits(c.algo, |msg|)
    requires c.command & HACE_SG_EN == 0
    requires (pad == c.ipad || pad == c.opad) && pad[..c.blockSize] == padBytes
    modifies c`bufcnt, c`digcnt, c.buffer, c.digest
    ensures c.Configured() && c.digcnt[1] == 0
    ensures d == c.digest[..c.algo.DigestSize()] == Hash(c.compress(c.algo), c.algo, padBytes + msg)
  {
    LoadPad(c, pad, msg);
    c.HashBuffer();
    d := c.digest[..c.algo.DigestSize()];
  }

  /** Put a pad and a message into the buffer, and count them. */
  method LoadPad(c: HaceController, pad: array<byte>, msg: seq<byte>)
    requires c.Configured() && c.digcnt[1] == 0 && Fits(c.algo, |msg|)
    requires pad == c.ipad || pad == c.opad
    modifies c`bufcnt, c`digcnt, c.buffer
    ensures c.Configured() && c.digcnt[1] == 0
    ensures c.Count() == c.bufcnt == c.blockSize + |msg|
    ensures c.buffer[..c.bufcnt] == pad[..c.blockSize] + msg
  {
    c.digcnt := c.digcnt[0 := c.blockSize];
    c.bufcnt := c.blockSize;
    CopyInto(c.buffer, 0, pad[..c.blockSize]);
    CopyInto(c.buffer, c.blockSize, msg);
    c.digcnt := c.digcnt[0 := c.digcnt[0] + |msg|];
    c.bufcnt := c.bufcnt + |msg|;
  }
}
