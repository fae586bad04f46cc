/** The HACE hash driver: the shared hash context, the engine behind it, and the
  * streaming digest operations (src/hace_controller.rs, src/hash_owned.rs). */
module Hace {
  import opened Bits
  import opened Bytes
  import opened Sha

  const HACE_SHA_BE_EN: bv32 := 0x8
  const HACE_CMD_ACC_MODE: bv32 := 0x100
  const HACE_SG_EN: bv32 := 0x4_0000
  const HACE_SG_LAST: u32 := 0x8000_0000
  const HACE_ALGO_SHA256: bv32 := 0x50
  const HACE_ALGO_SHA512: bv32 := 0x60
  const HACE_ALGO_SHA384: bv32 := 0x460
  const HACE_ALGO_MASK: bv32 := 0xC70
  const BUFFER_SIZE: nat := 256
  const TWO64: nat := 0x1_0000_0000_0000_0000

  /** What an engine address can point at: the context buffer or the caller's data. */
  datatype DmaAddr = BufferAddr | DataAddr

  datatype AspeedSg = AspeedSg(len: u32, addr: DmaAddr)

  function Bitmask(a: HashAlgo): bv32 {
    match a
    case SHA256 => HACE_ALGO_SHA256
    case SHA384 => HACE_ALGO_SHA384
    case SHA512 => HACE_ALGO_SHA512
  }

  function HashCmd(a: HashAlgo): bv32 {
    HACE_CMD_ACC_MODE | HACE_SHA_BE_EN | HACE_SG_EN | Bitmask(a)
  }

  /** The algorithm the engine reads out of a command word. */
  function EngineAlgo(command: bv32): Option<HashAlgo> {
    var bits := command & HACE_ALGO_MASK;
    if bits == HACE_ALGO_SHA256 then Some(SHA256)
    else if bits == HACE_ALGO_SHA384 then Some(SHA384)
    else if bits == HACE_ALGO_SHA512 then Some(SHA512)
    else None
  }

  /** A command word names its algorithm and asks for scatter-gather; clearing
    * HACE_SG_EN changes the second and not the first. */
  lemma CommandDecodes(a: HashAlgo)
    ensures EngineAlgo(HashCmd(a)) == Some(a) && HashCmd(a) & HACE_SG_EN != 0
    ensures EngineAlgo(HashCmd(a) & !HACE_SG_EN) == Some(a)
    ensures (HashCmd(a) & !HACE_SG_EN) & HACE_SG_EN == 0
  {
    match a
    case SHA256 =>
    case SHA384 =>
    case SHA512 =>
  }

  /** The command words in full. */
  lemma CommandWords()
    ensures HashCmd(SHA256) == 0x0004_0158
    ensures HashCmd(SHA384) == 0x0004_0568
    ensures HashCmd(SHA512) == 0x0004_0168
  {
  }

  lemma ClearSg(command: bv32)
    ensures EngineAlgo(command & !HACE_SG_EN) == EngineAlgo(command)
    ensures (command & !HACE_SG_EN) & HACE_SG_EN == 0
  {
    assert (command & !HACE_SG_EN) & HACE_ALGO_MASK == command & HACE_ALGO_MASK;
  }

  function SgIsLast(len: u32): bool { len / HACE_SG_LAST == 1 }

  function SgBytes(len: u32): u32 { len % HACE_SG_LAST }

  function MarkLast(n: u32): (len: u32) {
    Pow2Values();
    OrBound(n, HACE_SG_LAST, 32);
    Or(n, HACE_SG_LAST)
  }

  /** The length of a marked entry survives exactly when it leaves bit 31 free. */
  lemma MarkLastDecodes(n: u32)
    ensures SgIsLast(MarkLast(n))
    ensures SgBytes(MarkLast(n)) == n <==> n < 0x8000_0000
  {
    Pow2Values();
    if n < 0x8000_0000 {
      OrDisjoint(HACE_SG_LAST, n, 31);
    } else {
      OrDisjoint(HACE_SG_LAST, n - HACE_SG_LAST, 31);
      OrSetBit(HACE_SG_LAST, n - HACE_SG_LAST);
    }
  }

  /** Setting a bit that is already set changes nothing. */
  lemma OrSetBit(p: nat, m: nat)
    requires p == Pow2(31) && m < p
    ensures Or(p + m, p) == p + m
  {
    Pow2Values();
    var x := p + m;
    var y := Or(x, p);
    forall i: nat | i < 32
      ensures Bit(y, i) == Bit(x, i)
    {
      OrDisjoint(p, m, 31);
      BitOr(x, p, i);
      BitOr(p, m, i);
    }
    OrBound(x, p, 32);
    BitsExtensional(y, x, 32);
  }

  /** The bytes a scatter-gather list denotes: entries up to the one marked last, each
    * within the memory it points at. */
  function Gather(sg: seq<AspeedSg>, buffer: seq<byte>, data: seq<byte>): Option<seq<byte>>
    decreases |sg|
  {
    if sg == [] then None
    else
      var src := if sg[0].addr.BufferAddr? then buffer else data;
      var n := SgBytes(sg[0].len);
      if |src| < n then None
      else if SgIsLast(sg[0].len) then Some(src[..n])
      else
        match Gather(sg[1..], buffer, data)
        case None => None
        case Some(rest) => Some(src[..n] + rest)
  }

  class HaceController {
    const compress: HashAlgo -> Compressor
    var algo: HashAlgo
    // the context shared with the engine
    var sg: seq<AspeedSg>
    const digest: array<byte>
    var command: bv32
    var blockSize: nat
    const key: array<byte>
    var keyLen: nat
    const ipad: array<byte>
    const opad: array<byte>
    var digcnt: seq<u64>
    var bufcnt: u32
    const buffer: array<byte>
    // everything the current digest has been given
    ghost var fed: seq<byte>

    ghost predicate Shape()
      reads this
    {
      && digest.Length == 64 && buffer.Length == BUFFER_SIZE
      && key.Length == ipad.Length == opad.Length == 128
      && digest != buffer && digest != key && digest != ipad && digest != opad
      && buffer != key && buffer != ipad && buffer != opad
      && key != ipad && key != opad && ipad != opad
      && |sg| == 2 && |digcnt| == 2
    }

    ghost function Memory(): set<object> {
      {this, digest, key, ipad, opad, buffer}
    }

    /** Bytes counted so far, from the two 64-bit counters. */
    function Count(): nat
      requires |digcnt| == 2
      reads this
    {
      digcnt[0] + TWO64 * digcnt[1]
    }

    ghost predicate Configured()
      reads this
    {
      && Shape()
      && blockSize == algo.BlockSize()
      && EngineAlgo(command) == Some(algo)
    }

    /** A digest in progress: the engine has folded the whole blocks of fed and the
      * buffer holds the rest. */
    ghost predicate Streaming()
      reads this, digest, buffer
    {
      && Configured()
      && command == HashCmd(algo)
      && bufcnt == Residue(algo, |fed|)
      && Count() == |fed|
      && buffer[..bufcnt] == Held(algo, fed)
      && digest[..algo.IvSize()] == Fold(compress(algo), algo, IvBytes(algo), fed)
    }

    constructor (compress: HashAlgo -> Compressor)
      ensures Shape() && fresh(Memory()) && this.compress == compress
    {
      this.compress := compress;
      algo := SHA256;
      sg := [AspeedSg(0, BufferAddr), AspeedSg(0, BufferAddr)];
      digest := new byte[64](_ => 0);
      command := 0;
      blockSize := 0;
      key := new byte[128](_ => 0);
      keyLen := 0;
      ipad := new byte[128](_ => 0);
      opad := new byte[128](_ => 0);
      digcnt := [0, 0];
      bufcnt := 0;
      buffer := new byte[BUFFER_SIZE](_ => 0);
      fed := [];
    }

    method CopyIvToDigest()
      requires Shape()
      modifies digest
      ensures digest[..] == Splice(old(digest[..]), 0, IvBytes(algo))
    {
      CopyInto(digest, 0, IvBytes(algo));
    }

    /** What the engine reads for a command of len bytes. */
    function EngineInput(len: nat, data: seq<byte>): Option<seq<byte>>
      reads this, buffer
    {
      if command & HACE_SG_EN != 0 then Gather(sg, buffer[..], data)
      else if len <= buffer.Length then Some(buffer[..len])
      else None
    }

    /** One engine run.  The engine needs whole blocks, and a list that adds up to its
      * length register; it accumulates into the digest. */
    method StartHashOperation(len: nat, data: seq<byte>)
      requires Configured()
      requires EngineInput(len, data).Some? && |EngineInput(len, data).value| == len
      requires Residue(algo, len) == 0
      modifies digest
      ensures digest[..algo.IvSize()] == Fold(compress(algo), algo, old(digest[..algo.IvSize()]),
        old(EngineInput(len, data).value))
    {
      var input := EngineInput(len, data).value;
      var cv := digest[..algo.IvSize()];
      CopyInto(digest, 0, Fold(compress(algo), algo, cv, input));
    }

    /** Append the padding for a message of Count() bytes of which bufcnt + remaining
      * bytes are not yet in whole blocks. */
    method FillPadding(remaining: nat)
      requires Shape() && blockSize == algo.BlockSize()
      requires bufcnt + 1 + ZeroCount(algo, bufcnt + remaining) + algo.LengthSize() <= BUFFER_SIZE
      modifies `bufcnt, buffer
      ensures bufcnt == old(bufcnt) + |PaddingAfter(algo, old(bufcnt) + remaining, Count())|
      ensures buffer[..bufcnt] == old(buffer[..bufcnt]) + PaddingAfter(algo, old(bufcnt) + remaining, Count())
    {
      var start := bufcnt;
      var padlen := PadLength(start + remaining);
      ghost var was := buffer[..];
      WriteMarker(start, padlen - 1);
      var n := WriteLengthField(start + padlen);
      bufcnt := bufcnt + padlen + n;
      SplicePrefix(was, start, 0x80, Zeros(padlen - 1), LengthField(algo, Count()));
    }

    /** The byte 0x80 and n zeros. */
    method WriteMarker(at: nat, n: nat)
      requires at + 1 + n <= buffer.Length
      modifies buffer
      ensures buffer[..] == Splice(old(buffer[..])[at := 0x80], at + 1, Zeros(n))
    {
      buffer[at] := 0x80;
      assert buffer[..] == old(buffer[..])[at := 0x80];
      FillRange(buffer, at + 1, n, 0);
    }

    /** Distance from the end of the message to the length field. */
    method PadLength(pending: nat) returns (padlen: nat)
      requires blockSize == algo.BlockSize()
      ensures padlen == 1 + ZeroCount(algo, pending)
    {
      var index := And(pending, blockSize - 1);
      BlockMask(algo, pending);
      padlen :=
        if blockSize == 64 then (if index < 56 then 56 - index else 64 + 56 - index)
        else if index < 112 then 112 - index
        else 128 + 112 - index;
    }

    /** The bit count at the end of the padding: one big-endian 64-bit word, or two. */
    method WriteLengthField(at: nat) returns (n: nat)
      requires Shape() && blockSize == algo.BlockSize()
      requires at + algo.LengthSize() <= BUFFER_SIZE
      modifies buffer
      ensures n == algo.LengthSize()
      ensures buffer[..] == Splice(old(buffer[..]), at, LengthField(algo, Count()))
    {
      if blockSize == 64 {
        WriteShortLength(at);
        n := 8;
      } else {
        WriteWideLength(at);
        n := 16;
      }
    }

    method WriteShortLength(at: nat)
      requires Shape() && algo.LengthSize() == 8 && at + 8 <= BUFFER_SIZE
      modifies buffer
      ensures buffer[..] == Splice(old(buffer[..]), at, LengthField(algo, Count()))
    {
      var bits := BE(digcnt[0] * 8 % TWO64, 8);
      LowLength(digcnt[0], digcnt[1]);
      assert bits == LengthField(algo, Count());
      CopyInto(buffer, at, bits);
    }

    method WriteWideLength(at: nat)
      requires Shape() && algo.LengthSize() == 16 && at + 16 <= BUFFER_SIZE
      modifies buffer
      ensures buffer[..] == Splice(old(buffer[..]), at, LengthField(algo, Count()))
    {
      var low := BE(digcnt[0] * 8 % TWO64, 8);
      WideLength(digcnt[0], digcnt[1]);
      var high := BE(Or(digcnt[1] * 8 % TWO64, digcnt[0] / 0x2000_0000_0000_0000), 8);
      assert high + low == LengthField(algo, Count());
      CopyInto(buffer, at, high);
      CopyInto(buffer, at + 8, low);
      SpliceAdjacent(old(buffer[..]), at, high, low);
    }

    method CleanupContext()
      requires Shape()
      modifies this, digest, buffer
      ensures Shape() && algo == old(algo) && blockSize == old(blockSize)
      ensures bufcnt == 0 && Count() == 0 && command == old(command)
      ensures digest[..] == Zeros(64) && buffer[..] == Zeros(BUFFER_SIZE)
    {
      bufcnt := 0;
      FillRange(buffer, 0, BUFFER_SIZE, 0);
      FillRange(digest, 0, 64, 0);
      digcnt := [0, 0];
    }

    /** Start a digest. */
    method Init(a: HashAlgo)
      requires Shape()
      modifies this, digest
      ensures Streaming() && algo == a && fed == []
    {
      algo := a;
      command := HashCmd(algo);
      CopyIvToDigest();
      blockSize := algo.BlockSize();
      bufcnt := 0;
      digcnt := [0, 0];
      fed := [];
      CommandDecodes(a);
    }

    /** Add to the byte count, with the carry from one counter into the other. */
    method CountBytes(n: u32)
      requires Shape() && Count() + n < TWO64 * TWO64
      modifies `digcnt
      ensures |digcnt| == 2 && Count() == old(Count()) + n
    {
      var sum := digcnt[0] + n;
      var carry := sum >= TWO64;
      digcnt := digcnt[0 := sum % TWO64];
      if carry {
        digcnt := digcnt[1 := digcnt[1] + 1];
      }
    }

    /** Feed data to the digest. */
    method Update(data: seq<byte>)
      requires Streaming()
      requires |data| < 0x8000_0000 && |fed| + |data| < TWO64 * TWO64
      modifies this, digest, buffer
      ensures Streaming() && algo == old(algo)
      ensures fed == old(fed) + data
    {
      var inputLen := |data|;
      CountBytes(inputLen);
      if bufcnt + inputLen < blockSize {
        HoldBytes(data);
        return;
      }
      HashBlocks(data);
    }

    /** The buffering path of an update: not enough for a block yet. */
    method HoldBytes(data: seq<byte>)
      requires Configured() && command == HashCmd(algo)
      requires bufcnt + |data| < blockSize
      requires bufcnt == Residue(algo, |fed|) && Count() == |fed| + |data|
      requires buffer[..bufcnt] == Held(algo, fed)
      requires digest[..algo.IvSize()] == Fold(compress(algo), algo, IvBytes(algo), fed)
      modifies `bufcnt, `fed, buffer
      ensures Streaming()
      ensures fed == old(fed) + data
    {
      AbsorbShort(compress(algo), algo, IvBytes(algo), fed, data);
      CopyInto(buffer, bufcnt, data);
      bufcnt := bufcnt + |data|;
      fed := fed + data;
    }

    /** The scatter-gather path of an update: held bytes, then whole blocks of data. */
    method HashBlocks(data: seq<byte>)
      requires Configured() && command == HashCmd(algo)
      requires |data| < 0x8000_0000 && blockSize <= bufcnt + |data|
      requires bufcnt == Residue(algo, |fed|) && Count() == |fed| + |data|
      requires buffer[..bufcnt] == Held(algo, fed)
      requires digest[..algo.IvSize()] == Fold(compress(algo), algo, IvBytes(algo), fed)
      modifies this, digest, buffer
      ensures Streaming() && algo == old(algo)
      ensures fed == old(fed) + data
    {
      var remaining := Remaining(|data| + bufcnt);
      var totalLen := |data| + bufcnt - remaining;
      AbsorbBlocks(compress(algo), algo, IvBytes(algo), fed, data, totalLen - bufcnt);
      AbsorbData(data, totalLen, remaining);
      fed := fed + data;
    }

    /** What whole blocks leave of n bytes. */
    method Remaining(n: nat) returns (remaining: nat)
      requires blockSize == algo.BlockSize()
      ensures remaining == Residue(algo, n) && Residue(algo, n - remaining) == 0
      ensures blockSize <= n ==> blockSize <= n - remaining
    {
      remaining := n % blockSize;
      WholeBlocks(algo, n);
    }

    /** Run the engine on the held bytes and the data that completes totalLen, and hold the rest. */
    method AbsorbData(data: seq<byte>, totalLen: nat, remaining: nat)
      requires Configured() && command == HashCmd(algo) && |data| < 0x8000_0000
      requires bufcnt < blockSize <= totalLen && totalLen + remaining == bufcnt + |data|
      requires Residue(algo, totalLen) == 0 && remaining < blockSize
      modifies `sg, `bufcnt, digest, buffer
      ensures Configured()
      ensures digest[..algo.IvSize()] == Fold(compress(algo), algo, old(digest[..algo.IvSize()]),
        old(buffer[..bufcnt]) + data[..totalLen - old(bufcnt)])
      ensures bufcnt == remaining && buffer[..bufcnt] == data[totalLen - old(bufcnt)..]
    {
      RunEngine(data, totalLen);
      HoldRest(data, totalLen - bufcnt, remaining);
    }

    method RunEngine(data: seq<byte>, totalLen: nat)
      requires Configured() && command == HashCmd(algo) && |data| < 0x8000_0000
      requires bufcnt < blockSize <= totalLen <= bufcnt + |data| && Residue(algo, totalLen) == 0
      modifies `sg, digest
      ensures Configured()
      ensures digest[..algo.IvSize()] == Fold(compress(algo), algo, old(digest[..algo.IvSize()]),
        buffer[..bufcnt] + data[..totalLen - bufcnt])
    {
      BuildList(data, totalLen);
      CommandDecodes(algo);
      StartHashOperation(totalLen, data);
    }

    method HoldRest(data: seq<byte>, srcStart: nat, remaining: nat)
      requires Shape() && srcStart + remaining == |data| && remaining <= BUFFER_SIZE
      modifies `bufcnt, buffer
      ensures bufcnt == remaining && buffer[..bufcnt] == data[srcStart..]
    {
      if remaining != 0 {
        CopyInto(buffer, 0, data[srcStart..srcStart + remaining]);
        bufcnt := remaining;
      } else {
        bufcnt := 0;
      }
    }

    /** The scatter-gather list for the held bytes and the prefix of data that completes
      * totalLen. */
    method BuildList(data: seq<byte>, totalLen: nat)
      requires Shape() && |data| < 0x8000_0000
      requires bufcnt < blockSize <= totalLen <= bufcnt + |data| && blockSize <= BUFFER_SIZE
      modifies `sg
      ensures |sg| == 2
      ensures Gather(sg, buffer[..], data) == Some(buffer[..bufcnt] + data[..totalLen - bufcnt])
    {
      var last := MarkLast(totalLen - bufcnt);
      MarkLastDecodes(totalLen - bufcnt);
      var i := 0;
      if bufcnt != 0 {
        sg := sg[0 := AspeedSg(bufcnt, BufferAddr)];
        if totalLen == bufcnt {
          // Whole blocks never add up to less than one block.
          assert false;
        }
        i := i + 1;
      }
      if totalLen != bufcnt {
        sg := sg[i := AspeedSg(last, DataAddr)];
      }
      GatherHeldAndData(sg, buffer[..], data, bufcnt, totalLen - bufcnt, last);
    }

    /** Finish the digest and give the controller back with a clean context. */
    method Finalize() returns (output: seq<u32>)
      requires Streaming()
      modifies this, digest, buffer
      ensures Shape() && algo == old(algo)
      ensures 4 * |output| == algo.DigestSize()
      ensures forall i | 0 <= i < |output| ::
        BE(output[i], 4) == old(Hash(compress(algo), algo, fed))[4 * i..4 * i + 4]
      ensures bufcnt == 0 && Count() == 0
      ensures digest[..] == Zeros(64) && buffer[..] == Zeros(BUFFER_SIZE)
    {
      FinishBlocks();
      output := BigEndianWords(digest[..algo.DigestSize()]);
      CleanupContext();
    }

    /** Pad the held bytes and run the engine on them: the digest is now the hash. */
    method FinishBlocks()
      requires Streaming()
      modifies this, digest, buffer
      ensures Shape() && algo == old(algo)
      ensures digest[..algo.DigestSize()] == old(Hash(compress(algo), algo, fed))
    {
      HeldPadding(algo, fed);
      PaddedHash(compress(algo), algo, fed);
      FillPadding(0);
      RunOnBuffer();
    }

    /** Run the engine on the bytes in the buffer. */
    method RunOnBuffer()
      requires Configured() && command == HashCmd(algo)
      requires bufcnt <= BUFFER_SIZE && Residue(algo, bufcnt) == 0
      modifies `sg, digest
      ensures Configured()
      ensures digest[..algo.IvSize()] == Fold(compress(algo), algo, old(digest[..algo.IvSize()]), buffer[..bufcnt])
    {
      var last := MarkLast(bufcnt);
      MarkLastDecodes(bufcnt);
      sg := sg[0 := AspeedSg(last, BufferAddr)];
      CommandDecodes(algo);
      StartHashOperation(bufcnt, []);
    }

    /** Hash the bytes in the buffer in one run. */
    method HashBuffer()
      requires Configured() && Count() == bufcnt
      requires bufcnt + |Padding(algo, bufcnt)| <= BUFFER_SIZE
      requires command & HACE_SG_EN == 0
      modifies `bufcnt, buffer, digest
      ensures Configured()
      ensures digest[..algo.DigestSize()] == Hash(compress(algo), algo, old(buffer[..bufcnt]))
    {
      PaddingFillsBlock(algo, bufcnt);
      FillPadding(0);
      CopyIvToDigest();
      StartHashOperation(bufcnt, []);
    }

    /** Replace a long key by its digest. */
    method HashKey(keyBytes: seq<byte>)
      requires Configured() && digcnt[1] == 0
      requires |keyBytes| + |Padding(algo, |keyBytes|)| <= BUFFER_SIZE
      modifies this, buffer, digest, key, ipad, opad
      ensures Configured() && algo == old(algo) && digcnt[1] == 0
      ensures key[..] == Splice(old(key[..]), 0, Hash(compress(algo), algo, keyBytes))
      ensures ipad[..] == Splice(old(ipad[..]), 0, Hash(compress(algo), algo, keyBytes))
      ensures opad[..] == Splice(old(opad[..]), 0, Hash(compress(algo), algo, keyBytes))
      ensures keyLen == algo.DigestSize()
    {
      HashShort(keyBytes);
      var slice := digest[..algo.DigestSize()];
      CopyInto(key, 0, slice);
      CopyInto(ipad, 0, slice);
      CopyInto(opad, 0, slice);
      keyLen := algo.DigestSize();
    }

    /** Hash a byte string that fits the buffer with its padding. */
    method HashShort(bytes: seq<byte>)
      requires Configured() && digcnt[1] == 0
      requires |bytes| + |Padding(algo, |bytes|)| <= BUFFER_SIZE
      modifies `digcnt, `bufcnt, `command, buffer, digest
      ensures Configured() && digcnt[1] == 0
      ensures digest[..algo.DigestSize()] == Hash(compress(algo), algo, bytes)
    {
      digcnt := digcnt[0 := |bytes|];
      bufcnt := |bytes|;
      CopyInto(buffer, 0, bytes);
      ClearSg(command);
      command := command & !HACE_SG_EN;
      HashBuffer();
    }

    method Cancel()
      requires Shape()
      modifies this, digest, buffer
      ensures Shape() && algo == old(algo)
      ensures bufcnt == 0 && Count() == 0
      ensures digest[..] == Zeros(64) && buffer[..] == Zeros(BUFFER_SIZE)
    {
      CleanupContext();
    }
  }

  /** The big-endian words of a byte string. */
  method BigEndianWords(s: seq<byte>) returns (output: seq<u32>)
    requires |s| % 4 == 0
    ensures 4 * |output| == |s|
    ensures forall i | 0 <= i < |output| :: BE(output[i], 4) == s[4 * i..4 * i + 4]
  {
    output := [];
    while 4 * |output| < |s|
      invariant 4 * |output| <= |s|
      invariant forall i | 0 <= i < |output| :: BE(output[i], 4) == s[4 * i..4 * i + 4]
    {
      var chunk := s[4 * |output|..4 * |output| + 4];
      BEOfFromBE(chunk);
      FromBEBound(chunk);
      Pow2Values();
      output := output + [FromBE(chunk)];
    }
  }

  /** `% block_size` leaves a whole number of blocks. */
  lemma WholeBlocks(a: HashAlgo, n: nat)
    ensures n % a.BlockSize() == Residue(a, n)
    ensures Residue(a, n - Residue(a, n)) == 0
    ensures a.BlockSize() <= n ==> a.BlockSize() <= n - Residue(a, n)
  {
    WholePart(a, n);
    ResidueIsMod(a, n);
  }

  /** The list an update builds denotes the held bytes followed by n bytes of data. */
  lemma GatherHeldAndData(sg: seq<AspeedSg>, buffer: seq<byte>, data: seq<byte>, held: nat, n: nat, last: u32)
    requires |sg| == 2 && held <= |buffer| < 0x8000_0000 && n <= |data|
    requires SgIsLast(last) && SgBytes(last) == n
    requires held != 0 ==> sg[0] == AspeedSg(held, BufferAddr) && sg[1] == AspeedSg(last, DataAddr)
    requires held == 0 ==> sg[0] == AspeedSg(last, DataAddr)
    ensures Gather(sg, buffer, data) == Some(buffer[..held] + data[..n])
  {
    if held == 0 {
      assert buffer[..held] + data[..n] == data[..n];
    } else {
      assert Gather(sg[1..], buffer, data) == Some(data[..n]);
    }
  }

  /** The padding only depends on the held bytes, and completes them to whole blocks. */
  lemma HeldPadding(a: HashAlgo, x: seq<byte>)
    ensures PaddingAfter(a, |Held(a, x)|, |x|) == Padding(a, |x|)
    ensures Residue(a, |Held(a, x)| + |Padding(a, |x|)|) == 0
  {
    PaddingFillsBlock(a, |Held(a, x)|);
  }

  /** Running the engine on the held bytes and the padding completes the hash. */
  lemma PaddedHash(f: Compressor, a: HashAlgo, x: seq<byte>)
    ensures Hash(f, a, x) == Fold(f, a, Fold(f, a, IvBytes(a), x), Held(a, x) + Padding(a, |x|))[..a.DigestSize()]
  {
    var p := Padding(a, |x|);
    HeldPadding(a, x);
    AbsorbBlocks(f, a, IvBytes(a), x, p, |p|);
    assert p[..|p|] == p;
  }

  /** Masking with the block size less one is the residue. */
  lemma BlockMask(a: HashAlgo, n: nat)
    ensures And(n, a.BlockSize() - 1) == Residue(a, n)
  {
    Pow2Values();
    ResidueIsMod(a, n);
    AndMask(n, if a.BlockSize() == 64 then 6 else 7);
  }

  /** Eight bytes of the bit count, when only the low counter is read. */
  lemma LowLength(low: u64, high: u64)
    ensures BE(low * 8 % TWO64, 8) == BE(8 * (low + TWO64 * high), 8)
  {
    var r, q := low * 8 % TWO64, low * 8 / TWO64 + 8 * high;
    assert 8 * (low + TWO64 * high) == r + q * TWO64;
    WordPowers(8);
    BEPeriodic(r, q, 8);
  }

  /** Sixteen bytes of the bit count: the shifted halves, with the carry or-ed in. */
  lemma WideLength(low: u64, high: u64)
    ensures Or(high * 8 % TWO64, low / 0x2000_0000_0000_0000) < TWO64
    ensures BE(Or(high * 8 % TWO64, low / 0x2000_0000_0000_0000), 8) + BE(low * 8 % TWO64, 8)
      == BE(8 * (low + TWO64 * high), 16)
  {
    ShiftedHalves(low, high);
    CarryIn(high * 8 % TWO64, low / 0x2000_0000_0000_0000);
    TwoWords(high * 8 % TWO64 + low / 0x2000_0000_0000_0000, low * 8 % TWO64, high * 8 / TWO64,
      8 * (low + TWO64 * high));
  }

  lemma CarryIn(h: nat, carry: nat)
    requires h % 8 == 0 && carry < 8
    ensures Or(h, carry) == h + carry
  {
    Pow2Values();
    OrDisjoint(h, carry, 3);
  }

  lemma TwoWords(u: nat, l: nat, q: nat, n: nat)
    requires l < TWO64 && n == u * TWO64 + l + q * (TWO64 * TWO64)
    ensures BE(u, 8) + BE(l, 8) == BE(n, 16)
  {
    var k := 8;
    WordPowers(k);
    BEPeriodic(u * TWO64 + l, q, 2 * k);
    BEAppend(u, l, k, k);
  }

  lemma WordPowers(k: nat)
    requires k == 8
    ensures Pow2(8 * k) == TWO64 && Pow2(8 * (2 * k)) == TWO64 * TWO64
  {
    Pow2Values();
    Pow2Add(4 * k, 4 * k);
    Pow2Add(8 * k, 8 * k);
  }

  lemma ShiftedHalves(low: u64, high: u64)
    ensures
      var l, carry, h := low * 8 % TWO64, low / 0x2000_0000_0000_0000, high * 8 % TWO64;
      && h % 8 == 0 && carry < 8 && h + carry < TWO64
      && 8 * (low + TWO64 * high) == (h + carry) * TWO64 + l + (high * 8 / TWO64) * (TWO64 * TWO64)
  {
    var l, carry, h := low * 8 % TWO64, low / 0x2000_0000_0000_0000, high * 8 % TWO64;
    assert low * 8 / TWO64 == carry;
    assert low * 8 == carry * TWO64 + l;
    assert high * 8 == (high * 8 / TWO64) * TWO64 + h;
    assert h == 8 * (high % 0x2000_0000_0000_0000);
  }

  /** Init, updates and finalize. */
  method DigestChunks(c: HaceController, a: HashAlgo, chunks: seq<seq<byte>>) returns (output: seq<u32>)
    requires c.Shape()
    requires forall i | 0 <= i < |chunks| :: |chunks[i]| < 0x8000_0000
    requires |Concat(chunks)| < TWO64 * TWO64
    modifies c, c.digest, c.buffer
    ensures c.Shape()
    ensures 4 * |output| == a.DigestSize()
    ensures forall i | 0 <= i < |output| ::
      BE(output[i], 4) == Hash(c.compress(a), a, Concat(chunks))[4 * i..4 * i + 4]
  {
    c.Init(a);
    for i := 0 to |chunks|
      invariant c.Streaming() && c.algo == a
      invariant c.fed == Concat(chunks[..i])
    {
      ConcatStep(chunks, i);
      c.Update(chunks[i]);
    }
    assert chunks[..|chunks|] == chunks;
    output := c.Finalize();
  }

  /** A whole digest: however the message is cut into updates, the output is the last of the
    * chaining values h of the padded message, as big-endian words. */
  method DigestOf(c: HaceController, a: HashAlgo, chunks: seq<seq<byte>>)
    returns (output: seq<u32>, ghost h: seq<seq<byte>>)
    requires c.Shape()
    requires forall i | 0 <= i < |chunks| :: |chunks[i]| < 0x8000_0000
    requires |Concat(chunks)| < TWO64 * TWO64
    modifies c, c.digest, c.buffer
    ensures c.Shape()
    ensures |output| == match a case SHA256 => 8 case SHA384 => 12 case SHA512 => 16
    ensures IsChain(c.compress(a), a, Concat(chunks) + Padding(a, |Concat(chunks)|), h)
    ensures |Concat(chunks)| < LengthLimit(a) ==>
      IsFipsPadding(a, |Concat(chunks)|, Padding(a, |Concat(chunks)|))
    ensures 4 * |output| <= |h[|h| - 1]|
    ensures forall i | 0 <= i < |output| :: BE(output[i], 4) == h[|h| - 1][4 * i..4 * i + 4]
  {
    output := DigestChunks(c, a, chunks);
    h := HashIsChain(c.compress(a), a, Concat(chunks));
    PaddingIsFips(a, |Concat(chunks)|);
    forall i | 0 <= i < |output|
      ensures BE(output[i], 4) == h[|h| - 1][4 * i..4 * i + 4]
    {
      SlicePrefix(h[|h| - 1], a.DigestSize(), 4 * i, 4 * i + 4);
    }
  }

  lemma SlicePrefix<T>(s: seq<T>, n: nat, lo: nat, hi: nat)
    requires lo <= hi <= n <= |s|
    ensures s[..n][lo..hi] == s[lo..hi]
  {
  }

  function Concat(chunks: seq<seq<byte>>): seq<byte> {
    if chunks == [] then [] else Concat(chunks[..|chunks| - 1]) + chunks[|chunks| - 1]
  }

  lemma {:induction false} ConcatStep(chunks: seq<seq<byte>>, i: nat)
    requires i < |chunks|
    ensures Concat(chunks[..i + 1]) == Concat(chunks[..i]) + chunks[i]
    ensures |Concat(chunks[..i + 1])| <= |Concat(chunks)|
    decreases |chunks| - i
  {
    assert chunks[..i + 1][..i] == chunks[..i];
    if i + 1 < |chunks| {
      ConcatStep(chunks, i + 1);
    } else {
      assert chunks[..i + 1] == chunks;
    }
  }
}
