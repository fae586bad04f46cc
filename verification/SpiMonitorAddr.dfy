/** The SPI monitor's address privilege tables: one bit per 16 KiB block, for reads and for
  * writes (src/spimonitor/hardware.rs). */
module SpiMonitorAddr {
  import opened Bits
  import opened Bytes

  const ACCESS_BLOCK_UNIT: nat := 0x4000
  const ACCESS_BLOCK_PER_REG: nat := 0x8_0000
  const ADDR_LIMIT: nat := 0x1000_0000
  const REGS: nat := 512
  const BLOCKS: nat := 16384

  datatype RwSel = ReadSel | WriteSel
  datatype PrivOp = Enable | Disable
  datatype Error = AddressInvalid(addr: nat) | LengthInvalid(len: nat) | AddrTblRegsLocked(sel: RwSel)
  datatype Result = Ok(blocks: nat) | Err(error: Error) | Panicked
  datatype RegionInfo = RegionInfo(start: u32, length: u32)

  // ---- tables as bitmaps

  predicate Allowed(t: seq<u32>, block: nat)
    requires |t| == REGS && block < BLOCKS
  {
    Bit(t[block / 32], block % 32)
  }

  /** Some address of [addr, addr + len) lies in the block. */
  ghost predicate Touches(block: nat, addr: nat, len: nat) {
    exists a: nat :: addr <= a < addr + len && a / ACCESS_BLOCK_UNIT == block
  }

  function FirstBlock(addr: nat): nat { addr / ACCESS_BLOCK_UNIT }

  function EndBlock(addr: nat, len: nat): nat {
    (addr + len + ACCESS_BLOCK_UNIT - 1) / ACCESS_BLOCK_UNIT
  }

  lemma TouchedBlocks(block: nat, addr: nat, len: nat)
    requires len > 0
    ensures Touches(block, addr, len) <==> FirstBlock(addr) <= block < EndBlock(addr, len)
  {
    if FirstBlock(addr) <= block < EndBlock(addr, len) {
      var a := Max(addr, block * ACCESS_BLOCK_UNIT);
      assert a / ACCESS_BLOCK_UNIT == block;
    }
  }

  /** t1 is t0 with the blocks of [lo, hi) set to on and nothing else changed. */
  ghost predicate Configured(t0: seq<u32>, t1: seq<u32>, lo: nat, hi: nat, on: bool) {
    && |t0| == |t1| == REGS
    && forall k: nat | k < BLOCKS :: Allowed(t1, k) == if lo <= k < hi then on else Allowed(t0, k)
  }

  lemma ConfiguredChain(t0: seq<u32>, t1: seq<u32>, t2: seq<u32>, lo: nat, mid: nat, hi: nat, on: bool)
    requires lo <= mid <= hi && Configured(t0, t1, lo, mid, on) && Configured(t1, t2, mid, hi, on)
    ensures Configured(t0, t2, lo, hi, on)
  {
  }

  /** The bits decide the table. */
  lemma ConfiguredUnique(t0: seq<u32>, t1: seq<u32>, t2: seq<u32>, lo: nat, hi: nat, on: bool)
    requires Configured(t0, t1, lo, hi, on) && Configured(t0, t2, lo, hi, on)
    ensures t1 == t2
  {
    forall i | 0 <= i < REGS
      ensures t1[i] == t2[i]
    {
      Pow2Values();
      forall b: nat | b < 32
        ensures Bit(t1[i], b) == Bit(t2[i], b)
      {
        BlockIndex(i, b);
        assert Allowed(t1, 32 * i + b) == Allowed(t2, 32 * i + b);
      }
      BitsExtensional(t1[i], t2[i], 32);
    }
  }

  lemma BlockIndex(i: nat, b: nat)
    requires b < 32
    ensures (32 * i + b) / 32 == i && (32 * i + b) % 32 == b
  {
  }

  // ---- one block at a time, as the reference

  function SetBit(w: u32, b: nat, on: bool): (r: u32)
    requires b < 32
    ensures forall j: nat | j < 32 :: Bit(r, j) == if j == b then on else Bit(w, j)
  {
    SetBitIs(w, b, on);
    if on then Or(w, Pow2(b)) else And(w, Not(Pow2(b), 32))
  }

  lemma SetBitIs(w: u32, b: nat, on: bool)
    requires b < 32
    ensures Pow2(b) < Pow2(32) == 0x1_0000_0000
    ensures var r := if on then Or(w, Pow2(b)) else And(w, Not(Pow2(b), 32));
      r < Pow2(32) && forall j: nat | j < 32 :: Bit(r, j) == if j == b then on else Bit(w, j)
  {
    Pow2Values();
    Pow2Mono(b, 31);
    OrBound(w, Pow2(b), 32);
    AndBound(w, Not(Pow2(b), 32), 32);
    forall j: nat | j < 32
      ensures Bit(if on then Or(w, Pow2(b)) else And(w, Not(Pow2(b), 32)), j) == if j == b then on else Bit(w, j)
    {
      BitOr(w, Pow2(b), j);
      BitAnd(w, Not(Pow2(b), 32), j);
      BitNot(Pow2(b), 32, j);
      BitPow2(b, j);
    }
  }

  function SetBlock(t: seq<u32>, k: nat, on: bool): (r: seq<u32>)
    requires |t| == REGS && k < BLOCKS
    ensures Configured(t, r, k, k + 1, on)
  {
    SetBlockIs(t, k, on);
    t[k / 32 := SetBit(t[k / 32], k % 32, on)]
  }

  lemma SetBlockIs(t: seq<u32>, k: nat, on: bool)
    requires |t| == REGS && k < BLOCKS
    ensures Configured(t, t[k / 32 := SetBit(t[k / 32], k % 32, on)], k, k + 1, on)
  {
    var r := t[k / 32 := SetBit(t[k / 32], k % 32, on)];
    forall j: nat | j < BLOCKS
      ensures Allowed(r, j) == if k <= j < k + 1 then on else Allowed(t, j)
    {
      if j / 32 == k / 32 && j % 32 == k % 32 {
        assert j == k;
      }
    }
  }

  function SetBlocks(t: seq<u32>, k: nat, n: nat, on: bool): (r: seq<u32>)
    requires |t| == REGS && k + n <= BLOCKS
    ensures Configured(t, r, k, k + n, on)
    decreases n
  {
    if n == 0 then t
    else
      var t1 := SetBlock(t, k, on);
      var t2 := SetBlocks(t1, k + 1, n - 1, on);
      ConfiguredChain(t, t1, t2, k, k + 1, k + n, on);
      t2
  }

  /** However the blocks were set, word at a time or not, the table is the one that setting
    * them one at a time gives. */
  lemma FastPathIsBitByBit(t0: seq<u32>, t1: seq<u32>, lo: nat, n: nat, on: bool)
    requires lo + n <= BLOCKS && Configured(t0, t1, lo, lo + n, on)
    ensures t1 == SetBlocks(t0, lo, n, on)
  {
    ConfiguredUnique(t0, t1, SetBlocks(t0, lo, n, on), lo, lo + n, on);
  }

  // ---- a whole register

  function FullWord(on: bool): u32 { if on then 0xFFFF_FFFF else 0 }

  lemma FullWordBits(on: bool, b: nat)
    requires b < 32
    ensures Bit(FullWord(on), b) == on
  {
    BitZero(b);
    Pow2Values();
    BitNot(0, 32, b);
    var all: nat := Not(0, 32);
    assert FullWord(on) == if on then all else 0;
  }

  lemma SetWordIs(t: seq<u32>, i: nat, on: bool)
    requires |t| == REGS && i < REGS
    ensures Configured(t, t[i := FullWord(on)], 32 * i, 32 * i + 32, on)
  {
    var r := t[i := FullWord(on)];
    forall j: nat | j < BLOCKS
      ensures Allowed(r, j) == if 32 * i <= j < 32 * i + 32 then on else Allowed(t, j)
    {
      FullWordBits(on, j % 32);
      assert j / 32 == i <==> 32 * i <= j < 32 * i + 32;
    }
  }

  // ---- alignment and the guard

  const WORD: nat := 0x1_0000_0000

  /** A 32-bit result. */
  function Wrap(x: nat): u32 { x % WORD }

  lemma WrapOnce(x: nat)
    requires x < 2 * WORD
    ensures Wrap(x) == if x < WORD then x else x - WORD
  {
    if x < WORD { DivModUnique(x, WORD, 0, x); } else { DivModUnique(x, WORD, 1, x - WORD); }
  }

  /** The smallest block-aligned range that covers a range, if its end fits a word. */
  function GetAdjustedAddrLen(addr: u32, len: u32): (r: (u32, u32))
    ensures len == 0 ==> r == (addr, 0)
    ensures len > 0 ==> r.0 == FirstBlock(addr) * ACCESS_BLOCK_UNIT
    ensures len > 0 && EndBlock(addr, len) * ACCESS_BLOCK_UNIT < WORD ==>
      r.0 + r.1 == EndBlock(addr, len) * ACCESS_BLOCK_UNIT
  {
    AdjustedFits(addr, len);
    if len == 0 then (addr, 0)
    else
      var (alignedAddr, adjustedLen) :=
        if addr % ACCESS_BLOCK_UNIT != 0
        then (addr / ACCESS_BLOCK_UNIT * ACCESS_BLOCK_UNIT, Wrap(len + addr % ACCESS_BLOCK_UNIT))
        else (addr, len);
      (alignedAddr, Wrap(CeilBlocks(adjustedLen) * ACCESS_BLOCK_UNIT))
  }

  function CeilBlocks(len: nat): nat {
    (len + ACCESS_BLOCK_UNIT - 1) / ACCESS_BLOCK_UNIT
  }

  /** The blocks from the one an address lies in. */
  lemma CeilBlocksIs(addr: nat, len: nat)
    ensures CeilBlocks(len + addr % ACCESS_BLOCK_UNIT) == EndBlock(addr, len) - FirstBlock(addr)
  {
    var o := addr % ACCESS_BLOCK_UNIT;
    var n := CeilBlocks(len + o);
    var rest := (len + o + ACCESS_BLOCK_UNIT - 1) % ACCESS_BLOCK_UNIT;
    DivModUnique(addr + len + ACCESS_BLOCK_UNIT - 1, ACCESS_BLOCK_UNIT, FirstBlock(addr) + n, rest);
  }

  lemma AdjustedFits(addr: u32, len: u32)
    ensures len > 0 && EndBlock(addr, len) * ACCESS_BLOCK_UNIT < WORD ==>
      var adjusted := len + addr % ACCESS_BLOCK_UNIT;
      && Wrap(adjusted) == adjusted
      && Wrap(CeilBlocks(adjusted) * ACCESS_BLOCK_UNIT)
        == (EndBlock(addr, len) - FirstBlock(addr)) * ACCESS_BLOCK_UNIT
  {
    var adjusted := len + addr % ACCESS_BLOCK_UNIT;
    CeilBlocksIs(addr, len);
    WrapOnce(adjusted);
    if EndBlock(addr, len) * ACCESS_BLOCK_UNIT < WORD {
      WrapOnce(CeilBlocks(adjusted) * ACCESS_BLOCK_UNIT);
    }
  }

  /** The number of blocks the driver counts for a range. */
  function Blocks(addr: u32, len: u32): nat {
    GetAdjustedAddrLen(addr, len).1 / ACCESS_BLOCK_UNIT
  }

  lemma BlocksIs(addr: u32, len: u32)
    requires InRange(addr, len)
    ensures Blocks(addr, len) == EndBlock(addr, len) - FirstBlock(addr) && EndBlock(addr, len) <= BLOCKS
  {
    var n := EndBlock(addr, len) - FirstBlock(addr);
    assert EndBlock(addr, len) * ACCESS_BLOCK_UNIT <= ADDR_LIMIT;
    DivModUnique(GetAdjustedAddrLen(addr, len).1, ACCESS_BLOCK_UNIT, n, 0);
  }

  /** A range whose end wraps is counted as at most one block, or as more than the table has:
    * the latter exactly if, from the start of its first block, it is a block short of 2^32. */
  lemma WrappedBlocks(addr: u32, len: u32)
    requires addr < ADDR_LIMIT && addr + len >= WORD
    ensures var adjusted := len + addr % ACCESS_BLOCK_UNIT;
      if adjusted <= WORD - ACCESS_BLOCK_UNIT then FirstBlock(addr) + Blocks(addr, len) > BLOCKS
      else Blocks(addr, len) == if adjusted > WORD then 1 else 0
  {
    var adjusted: nat := len + addr % ACCESS_BLOCK_UNIT;
    WrapOnce(adjusted);
    var n := CeilBlocks(Wrap(adjusted));
    CeilBounds(Wrap(adjusted));
    if adjusted <= WORD - ACCESS_BLOCK_UNIT {
      WrapOnce(n * ACCESS_BLOCK_UNIT);
      DivModUnique(n * ACCESS_BLOCK_UNIT, ACCESS_BLOCK_UNIT, n, 0);
    } else if adjusted < WORD {
      assert n * ACCESS_BLOCK_UNIT == WORD;
      WrapOnce(WORD);
    } else {
      assert n == if adjusted > WORD then 1 else 0;
      WrapOnce(n * ACCESS_BLOCK_UNIT);
    }
  }

  lemma CeilBounds(len: nat)
    ensures CeilBlocks(len) * ACCESS_BLOCK_UNIT >= len > (CeilBlocks(len) - 1) * ACCESS_BLOCK_UNIT
  {
  }

  predicate InRange(addr: nat, len: nat) {
    addr < ADDR_LIMIT && 0 < len && addr + len <= ADDR_LIMIT
  }

  /** The range check adds in 32 bits: for an address below the limit it is the intended
    * check exactly when the sum does not wrap. */
  lemma GuardExact(addr: u32, len: u32)
    requires addr < ADDR_LIMIT && len > 0
    ensures (Wrap(addr + len) > ADDR_LIMIT <==> addr + len > ADDR_LIMIT) <==> addr + len < WORD
  {
    WrapOnce(addr + len);
  }

  /** What gets through the range check. */
  predicate Accepted(addr: u32, len: u32) {
    addr < ADDR_LIMIT && 0 < len && Wrap(addr + len) <= ADDR_LIMIT
  }

  lemma AcceptedIs(addr: u32, len: u32)
    ensures Accepted(addr, len) <==> InRange(addr, len) || (addr < ADDR_LIMIT && addr + len >= WORD)
  {
    if addr < ADDR_LIMIT { WrapOnce(addr + len); }
  }

  /** The driver runs out of registers. */
  predicate Overruns(addr: u32, len: u32) {
    Accepted(addr, len) && FirstBlock(addr) + Blocks(addr, len) > BLOCKS
  }

  /** The blocks that the driver sets for a range. */
  predicate Covers(addr: u32, len: u32, block: nat) {
    Accepted(addr, len) && FirstBlock(addr) <= block < FirstBlock(addr) + Blocks(addr, len)
  }

  /** A range whose end can be computed in 32 bits, if the guard gets that far. */
  predicate NoWrap(addr: nat, len: nat) {
    addr < ADDR_LIMIT ==> addr + len < WORD
  }

  /** Without a wrap these are the blocks that a valid range touches. */
  lemma CoversIs(addr: u32, len: u32, block: nat)
    requires NoWrap(addr, len)
    ensures Covers(addr, len, block) <==> InRange(addr, len) && Touches(block, addr, len)
    ensures !Overruns(addr, len)
  {
    AcceptedIs(addr, len);
    if InRange(addr, len) {
      BlocksIs(addr, len);
      TouchedBlocks(block, addr, len);
    }
  }

  // ---- the policy

  /** A block that some valid region touches. */
  ghost predicate IsBlocked(regions: seq<RegionInfo>, block: nat) {
    exists i :: 0 <= i < |regions| && InRange(regions[i].start, regions[i].length)
      && Touches(block, regions[i].start, regions[i].length)
  }

  /** A block that the driver sets for some region. */
  predicate IsCovered(regions: seq<RegionInfo>, block: nat) {
    exists i :: 0 <= i < |regions| && Covers(regions[i].start, regions[i].length, block)
  }

  predicate NoneWraps(regions: seq<RegionInfo>) {
    forall i | 0 <= i < |regions| :: NoWrap(regions[i].start, regions[i].length)
  }

  /** The policy is the intended one for regions that do not wrap. */
  lemma CoveredIsBlocked(regions: seq<RegionInfo>, block: nat)
    requires NoneWraps(regions)
    ensures IsCovered(regions, block) <==> IsBlocked(regions, block)
  {
    forall i | 0 <= i < |regions|
      ensures Covers(regions[i].start, regions[i].length, block)
        <==> InRange(regions[i].start, regions[i].length) && Touches(block, regions[i].start, regions[i].length)
    {
      CoversIs(regions[i].start, regions[i].length, block);
    }
  }

  /** The table allows a block exactly when the driver sets it for no region, unless it was
    * locked and so kept as it was. */
  ghost predicate PermTable(locked: bool, t0: seq<u32>, t1: seq<u32>, regions: seq<RegionInfo>) {
    && |t0| == |t1| == REGS
    && (locked ==> t1 == t0)
    && (!locked ==> forall k: nat | k < BLOCKS :: Allowed(t1, k) <==> !IsCovered(regions, k))
  }

  /** For regions that do not wrap, the table allows exactly what no valid region touches. */
  lemma PolicyHolds(t0: seq<u32>, t1: seq<u32>, regions: seq<RegionInfo>, k: nat)
    requires PermTable(false, t0, t1, regions) && NoneWraps(regions) && k < BLOCKS
    ensures Allowed(t1, k) <==> !IsBlocked(regions, k)
  {
    CoveredIsBlocked(regions, k);
  }

  /** A region whose end wraps blocks at most the block it starts in. */
  lemma WrapBlocksLittle(region: RegionInfo, k: nat)
    requires region.start < ADDR_LIMIT && region.start + region.length >= WORD
    requires !Overruns(region.start, region.length)
    ensures Accepted(region.start, region.length)
    ensures Covers(region.start, region.length, k)
      <==> k == FirstBlock(region.start) && region.length + region.start % ACCESS_BLOCK_UNIT > WORD
  {
    AcceptedIs(region.start, region.length);
    WrappedBlocks(region.start, region.length);
  }

  lemma PermTableStarts(t0: seq<u32>, t1: seq<u32>)
    requires Configured(t0, t1, FirstBlock(0), EndBlock(0, ADDR_LIMIT), true)
    ensures PermTable(false, t0, t1, [])
  {
    forall k: nat | k < BLOCKS
      ensures Allowed(t1, k) <==> !IsCovered([], k)
    {
    }
  }

  /** One more region, valid or not. */
  lemma PermTableExtends(locked: bool, t0: seq<u32>, t: seq<u32>, t1: seq<u32>, regions: seq<RegionInfo>, i: nat)
    requires i < |regions| && PermTable(locked, t0, t, regions[..i]) && |t1| == REGS
    requires
      var (a, n) := (regions[i].start, regions[i].length);
      if locked || !Accepted(a, n) then t1 == t
      else Configured(t, t1, FirstBlock(a), FirstBlock(a) + Blocks(a, n), false)
    ensures PermTable(locked, t0, t1, regions[..i + 1])
  {
    if !locked {
      forall k: nat | k < BLOCKS
        ensures Allowed(t1, k) <==> !IsCovered(regions[..i + 1], k)
      {
        CoveredBy(regions, i, k);
      }
    }
  }

  lemma CoveredBy(regions: seq<RegionInfo>, i: nat, k: nat)
    requires i < |regions|
    ensures IsCovered(regions[..i + 1], k) <==>
      IsCovered(regions[..i], k) || Covers(regions[i].start, regions[i].length, k)
  {
    var more := regions[..i + 1];
    assert more[i] == regions[i];
    assert forall j | 0 <= j < i :: more[j] == regions[..i][j];
    if IsCovered(regions[..i], k) {
      var j :| 0 <= j < i && Covers(regions[..i][j].start, regions[..i][j].length, k);
      assert more[j] == regions[..i][j];
    }
  }

  /** Some region, if the table is not locked, makes the driver run out of registers. */
  predicate SomeOverruns(locked: bool, regions: seq<RegionInfo>) {
    !locked && exists i :: 0 <= i < |regions| && Overruns(regions[i].start, regions[i].length)
  }

  class PrivTables {
    const readTable: array<u32>
    const writeTable: array<u32>
    var selected: RwSel
    var readLocked: bool
    var writeLocked: bool
    var readBlocked: seq<RegionInfo>
    var writeBlocked: seq<RegionInfo>

    predicate Valid()
    {
      readTable.Length == writeTable.Length == REGS && readTable != writeTable
    }

    constructor (readBlocked: seq<RegionInfo>, writeBlocked: seq<RegionInfo>)
      ensures Valid() && !readLocked && !writeLocked
      ensures this.readBlocked == readBlocked && this.writeBlocked == writeBlocked
    {
      readTable, writeTable := new u32[REGS](_ => 0), new u32[REGS](_ => 0);
      selected, readLocked, writeLocked := ReadSel, false, false;
      this.readBlocked, this.writeBlocked := readBlocked, writeBlocked;
    }

    /** The registers that the access window shows for a selection. */
    function Window(sel: RwSel): array<u32> {
      if sel.ReadSel? then readTable else writeTable
    }

    predicate Locked(sel: RwSel)
      reads this
    {
      if sel.ReadSel? then readLocked else writeLocked
    }

    /** Set one block in the selected table. */
    method ConfigBlock(ghost sel: RwSel, regOff: nat, bitOff: nat, on: bool)
      requires Valid() && selected == sel && regOff < REGS && bitOff < 32
      modifies Window(sel)
      ensures Configured(old(Window(sel)[..]), Window(sel)[..], 32 * regOff + bitOff, 32 * regOff + bitOff + 1, on)
    {
      BlockIndex(regOff, bitOff);
      SetBlockIs(Window(sel)[..], 32 * regOff + bitOff, on);
      var window := Window(selected);
      window[regOff] := SetBit(window[regOff], bitOff, on);
      assert window[..] == old(Window(sel)[..])[regOff := SetBit(old(Window(sel)[regOff]), bitOff, on)];
    }

    /** Set the 32 blocks of one register. */
    method ConfigWord(ghost sel: RwSel, regOff: nat, on: bool)
      requires Valid() && selected == sel && regOff < REGS
      modifies Window(sel)
      ensures Configured(old(Window(sel)[..]), Window(sel)[..], 32 * regOff, 32 * regOff + 32, on)
    {
      SetWordIs(Window(sel)[..], regOff, on);
      var window := Window(selected);
      window[regOff] := FullWord(on);
      assert window[..] == old(Window(sel)[..])[regOff := FullWord(on)];
    }

    /** Allow or forbid every block that the driver counts for a range; if these are more than
      * there are, the last access panics. */
    method AddressPrivilegeConfig(sel: RwSel, op: PrivOp, addr: u32, len: u32) returns (r: Result)
      requires Valid()
      modifies `selected, Window(sel)
      ensures r == if addr >= ADDR_LIMIT then Err(AddressInvalid(addr))
                   else if !Accepted(addr, len) then Err(LengthInvalid(len))
                   else if Locked(sel) then Err(AddrTblRegsLocked(sel))
                   else if Overruns(addr, len) then Panicked
                   else Ok(Blocks(addr, len))
      ensures r.Err? ==> Window(sel)[..] == old(Window(sel)[..]) && selected == old(selected)
      ensures !r.Err? ==>
        && selected == sel
        && Configured(old(Window(sel)[..]), Window(sel)[..], FirstBlock(addr),
                      Min(FirstBlock(addr) + Blocks(addr, len), BLOCKS), op.Enable?)
    {
      if addr >= ADDR_LIMIT {
        return Err(AddressInvalid(addr));
      }
      if len == 0 || Wrap(addr + len) > ADDR_LIMIT {
        return Err(LengthInvalid(len));
      }
      if Locked(sel) {
        return Err(AddrTblRegsLocked(sel));
      }
      var (alignedAddr, adjustedLen) := GetAdjustedAddrLen(addr, len);
      var regOff, bitOff := alignedAddr / ACCESS_BLOCK_PER_REG, alignedAddr % ACCESS_BLOCK_PER_REG / ACCESS_BLOCK_UNIT;
      var totalBlocks := adjustedLen / ACCESS_BLOCK_UNIT;
      selected := sel;
      RegisterOf(addr);
      var ok := ConfigBlocks(sel, regOff, bitOff, totalBlocks, op.Enable?);
      r := if ok then Ok(totalBlocks) else Panicked;
    }

    lemma RegisterOf(addr: u32)
      requires addr < ADDR_LIMIT
      ensures var aligned := FirstBlock(addr) * ACCESS_BLOCK_UNIT;
        32 * (aligned / ACCESS_BLOCK_PER_REG) + aligned % ACCESS_BLOCK_PER_REG / ACCESS_BLOCK_UNIT
          == FirstBlock(addr) < BLOCKS
    {
    }

    method ConfigBlocks(sel: RwSel, regOff0: nat, bitOff0: nat, totalBlocks: nat, on: bool) returns (ok: bool)
      requires Valid() && selected == sel && bitOff0 < 32 && 32 * regOff0 + bitOff0 < BLOCKS
      modifies Window(sel)
      ensures ok <==> 32 * regOff0 + bitOff0 + totalBlocks <= BLOCKS
      ensures var lo := 32 * regOff0 + bitOff0;
        Configured(old(Window(sel)[..]), Window(sel)[..], lo, Min(lo + totalBlocks, BLOCKS), on)
    {
      var regOff: nat, bitOff: nat, totalBitNum: nat := regOff0, bitOff0, totalBlocks;
      ghost var lo: nat := 32 * regOff + bitOff;
      while totalBitNum > 0
        invariant bitOff <= 32 && 32 * regOff + bitOff + totalBitNum == lo + totalBlocks
        invariant lo <= 32 * regOff + bitOff <= BLOCKS
        invariant Configured(old(Window(sel)[..]), Window(sel)[..], lo, 32 * regOff + bitOff, on)
        decreases totalBitNum
      {
        if bitOff > 31 {
          bitOff := 0;
          regOff := regOff + 1;
        }
        if regOff >= REGS {
          return false;
        }
        ghost var t, done := Window(sel)[..], 32 * regOff + bitOff;
        if bitOff == 0 && totalBitNum >= 32 {
          ConfigWord(sel, regOff, on);
          ConfiguredChain(old(Window(sel)[..]), t, Window(sel)[..], lo, done, done + 32, on);
          regOff := regOff + 1;
          totalBitNum := totalBitNum - 32;
        } else {
          ConfigBlock(sel, regOff, bitOff, on);
          ConfiguredChain(old(Window(sel)[..]), t, Window(sel)[..], lo, done, done + 1, on);
          bitOff := bitOff + 1;
          totalBitNum := totalBitNum - 1;
        }
      }
      ok := true;
    }

    /** Allow everything, then forbid the blocked regions.  Errors are dropped, so a bad
      * region is skipped; a region that overruns an unlocked table panics. */
    method RwPermInit() returns (ok: bool)
      requires Valid()
      modifies `selected, readTable, writeTable
      ensures ok <==> !SomeOverruns(readLocked, readBlocked) && !SomeOverruns(writeLocked, writeBlocked)
      ensures ok ==> PermTable(readLocked, old(readTable[..]), readTable[..], readBlocked)
      ensures ok ==> PermTable(writeLocked, old(writeTable[..]), writeTable[..], writeBlocked)
    {
      AllowAll(ReadSel);
      ghost var read := readTable[..];
      AllowAll(WriteSel);
      assert readTable[..] == read;
      ghost var write := writeTable[..];
      ok := BlockRegions(ReadSel, readBlocked, old(readTable[..]));
      if !ok {
        return;
      }
      assert writeTable[..] == write;
      read := readTable[..];
      ok := BlockRegions(WriteSel, writeBlocked, old(writeTable[..]));
      assert readTable[..] == read;
    }

    method AllowAll(sel: RwSel)
      requires Valid()
      modifies `selected, Window(sel)
      ensures PermTable(Locked(sel), old(Window(sel)[..]), Window(sel)[..], [])
    {
      assert InRange(0, ADDR_LIMIT);
      AcceptedIs(0, ADDR_LIMIT);
      BlocksIs(0, ADDR_LIMIT);
      var _ := AddressPrivilegeConfig(sel, Enable, 0, ADDR_LIMIT);
      if !Locked(sel) { PermTableStarts(old(Window(sel)[..]), Window(sel)[..]); }
    }

    /** Forbid the blocks of each region in turn. */
    method BlockRegions(sel: RwSel, regions: seq<RegionInfo>, ghost t0: seq<u32>) returns (ok: bool)
      requires Valid() && PermTable(Locked(sel), t0, Window(sel)[..], [])
      modifies `selected, Window(sel)
      ensures ok <==> !SomeOverruns(Locked(sel), regions)
      ensures ok ==> PermTable(Locked(sel), t0, Window(sel)[..], regions)
    {
      for i := 0 to |regions|
        invariant PermTable(Locked(sel), t0, Window(sel)[..], regions[..i])
        invariant !Locked(sel) ==> forall j | 0 <= j < i :: !Overruns(regions[j].start, regions[j].length)
      {
        ghost var t := Window(sel)[..];
        var r := AddressPrivilegeConfig(sel, Disable, regions[i].start, regions[i].length);
        if r.Panicked? {
          return false;
        }
        PermTableExtends(Locked(sel), t0, t, Window(sel)[..], regions, i);
      }
      assert regions[..|regions|] == regions;
      ok := true;
    }
  }
}
