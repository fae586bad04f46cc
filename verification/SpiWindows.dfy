/** The address windows of the SPI and FMC flash controllers
  * (src/spi/spicontroller.rs, src/spi/fmccontroller.rs). */
module SpiWindows {
  import opened Bits
  import opened Bytes

  const SZ_2M: nat := 0x20_0000
  const SZ_256M: nat := 0x1000_0000
  const REGISTERS: nat := 2

  // ---- segment registers

  /** The two controllers differ in how fine their windows are. */
  datatype Layout = Spi | Fmc {
    function Granule(): nat { if Spi? then 0x10_0000 else 0x8_0000 }

    function SegmentStart(reg: u32): nat {
      Shl(And(reg, if Spi? then 0x0FF0 else 0x0FF8), 16)
    }

    function SegmentEnd(reg: u32): nat {
      if Spi? then Or(And(reg, 0x0FF0_0000), 0x000F_FFFF) else Or(And(reg, 0x0FF8_0000), 0x0007_FFFF)
    }

    function SegmentCompose(start: u32, end: u32): nat {
      if Spi? then
        Or(And(Shr(Shl(Shr(start, 20), 20), 16), 0xFFFF), And(Shl(Shr(end, 20), 20), 0xFFFF_0000))
      else
        Or(And(Shr(Shl(Shr(start, 19), 19), 16), 0xFFF8), And(Shl(Shr(end, 19), 19), 0xFFF8_0000))
    }
  }

  lemma MorePowers()
    ensures Pow2(9) == 512 && Pow2(13) == 0x2000 && Pow2(19) == 0x8_0000 && Pow2(20) == 0x10_0000
    ensures Pow2(3) == 8 && Pow2(4) == 16 && Pow2(8) == 256 && Pow2(16) == 0x1_0000
  {
    Pow2Values();
    Pow2Add(8, 1);
    Pow2Add(8, 5);
    Pow2Add(16, 3);
    Pow2Add(16, 4);
  }

  /** Masking with w ones above l zeros, in arithmetic. */
  lemma FieldIs(a: nat, w: nat, l: nat, mask: nat)
    requires mask == (Pow2(w) - 1) * Pow2(l)
    ensures And(a, mask) == a / Pow2(l) % Pow2(w) * Pow2(l)
  {
    OnesIs(w, l);
    AndField(a, w, l);
    ShrIsDiv(a, l);
    ShlIsMul(a / Pow2(l) % Pow2(w), l);
  }

  lemma {:induction false} OnesIs(w: nat, l: nat)
    ensures Ones(w, l) == (Pow2(w) - 1) * Pow2(l)
  {
    if l > 0 { OnesIs(w, l - 1); }
  }

  lemma SpiSegments(reg: u32)
    ensures Spi.SegmentStart(reg) == reg / 16 % 256 * 0x10_0000
    ensures Spi.SegmentEnd(reg) == reg / 0x10_0000 % 256 * 0x10_0000 + 0xF_FFFF
  {
    MorePowers();
    FieldIs(reg, 8, 4, 0x0FF0);
    ShlIsMul(reg / 16 % 256 * 16, 16);
    FieldIs(reg, 8, 20, 0x0FF0_0000);
    ModMultiple(reg / 0x10_0000 % 256, 0x10_0000);
    OrDisjoint(reg / 0x10_0000 % 256 * 0x10_0000, 0xF_FFFF, 20);
  }

  lemma FmcSegments(reg: u32)
    ensures Fmc.SegmentStart(reg) == reg / 8 % 512 * 0x8_0000
    ensures Fmc.SegmentEnd(reg) == reg / 0x8_0000 % 512 * 0x8_0000 + 0x7_FFFF
  {
    MorePowers();
    FieldIs(reg, 9, 3, 0x0FF8);
    ShlIsMul(reg / 8 % 512 * 8, 16);
    FieldIs(reg, 9, 19, 0x0FF8_0000);
    ModMultiple(reg / 0x8_0000 % 512, 0x8_0000);
    OrDisjoint(reg / 0x8_0000 % 512 * 0x8_0000, 0x7_FFFF, 19);
  }

  lemma RoundedDown(x: nat, g: nat, m: nat)
    requires m == Pow2(g)
    ensures Shl(Shr(x, g), g) == x / m * m
  {
    ShrIsDiv(x, g);
    ShlIsMul(x / m, g);
  }

  lemma SpiCompose(start: u32, end: u32)
    ensures Spi.SegmentCompose(start, end) == start / 0x10_0000 * 16 + end / 0x10_0000 * 0x10_0000
  {
    MorePowers();
    RoundedDown(start, 20, 0x10_0000);
    RoundedDown(end, 20, 0x10_0000);
    SpiFields(start / 0x10_0000, end / 0x10_0000);
  }

  lemma FieldKept(k: nat, w: nat, l: nat, p: nat, mask: nat)
    requires p == Pow2(l) && k < Pow2(w) && mask == (Pow2(w) - 1) * p
    ensures And(k * p, mask) == k * p
  {
    FieldIs(k * p, w, l, mask);
    DivModUnique(k * p, p, k, 0);
    SmallMod(k, Pow2(w));
  }

  lemma SmallMod(k: nat, m: nat)
    requires k < m
    ensures k % m == k
  {
    DivModUnique(k, m, 0, k);
  }

  lemma SpiFields(i: nat, j: nat)
    requires i < 4096 && j < 4096
    ensures Or(And(Shr(i * 0x10_0000, 16), 0xFFFF), And(j * 0x10_0000, 0xFFFF_0000)) == i * 16 + j * 0x10_0000
  {
    SpiLow(i);
    SpiHigh(j);
    MorePowers();
    WholeMultiple(j * 16, 0x1_0000);
    OrDisjoint(j * 0x10_0000, i * 16, 16);
  }

  lemma SpiLow(i: nat)
    requires i < 4096
    ensures And(Shr(i * 0x10_0000, 16), 0xFFFF) == i * 16
  {
    MorePowers();
    ShrIsDiv(i * 0x10_0000, 16);
    FieldKept(i * 16, 16, 0, 1, 0xFFFF);
  }

  lemma SpiHigh(j: nat)
    requires j < 4096
    ensures And(j * 0x10_0000, 0xFFFF_0000) == j * 0x10_0000
  {
    MorePowers();
    var k := j * 16;
    FieldKept(k, 16, 16, 0x1_0000, 0xFFFF_0000);
    assert k * 0x1_0000 == j * 0x10_0000;
  }

  lemma WholeMultiple(k: int, g: nat)
    requires g > 0
    ensures (k * g) % g == 0
  {
    DivModUnique(k * g, g, k, 0);
  }

  lemma FmcCompose(start: u32, end: u32)
    ensures Fmc.SegmentCompose(start, end) == start / 0x8_0000 * 8 + end / 0x8_0000 * 0x8_0000
  {
    MorePowers();
    RoundedDown(start, 19, 0x8_0000);
    RoundedDown(end, 19, 0x8_0000);
    FmcFields(start / 0x8_0000, end / 0x8_0000);
  }

  lemma FmcFields(i: nat, j: nat)
    requires i < 8192 && j < 8192
    ensures Or(And(Shr(i * 0x8_0000, 16), 0xFFF8), And(j * 0x8_0000, 0xFFF8_0000)) == i * 8 + j * 0x8_0000
  {
    FmcLow(i);
    FmcHigh(j);
    MorePowers();
    WholeMultiple(j * 8, 0x1_0000);
    OrDisjoint(j * 0x8_0000, i * 8, 16);
  }

  lemma FmcLow(i: nat)
    requires i < 8192
    ensures And(Shr(i * 0x8_0000, 16), 0xFFF8) == i * 8
  {
    MorePowers();
    ShrIsDiv(i * 0x8_0000, 16);
    FieldKept(i, 13, 3, 8, 0xFFF8);
  }

  lemma FmcHigh(j: nat)
    requires j < 8192
    ensures And(j * 0x8_0000, 0xFFF8_0000) == j * 0x8_0000
  {
    MorePowers();
    FieldKept(j, 13, 19, 0x8_0000, 0xFFF8_0000);
  }

  // ---- decoding what was composed

  /** The window a register stands for, relative to the 256 MiB region; 0 is off. */
  function DecodedSize(l: Layout, reg: u32): u32 {
    if reg == 0 then 0 else Wrap(l.SegmentEnd(reg) - l.SegmentStart(reg) + 1)
  }

  /** A 32-bit result. */
  function Wrap(x: int): u32 {
    x % 0x1_0000_0000
  }

  lemma WrapSmall(x: nat)
    requires x < 0x1_0000_0000
    ensures Wrap(x) == x
  {
    DivModUnique(x, 0x1_0000_0000, 0, x);
  }

  /** Wrapping keeps whole granules whole. */
  lemma WrapWhole(l: Layout, k: int)
    ensures Wrap(k * l.Granule()) % l.Granule() == 0
  {
    var g, q := l.Granule(), k * l.Granule() / 0x1_0000_0000;
    var c := if l.Spi? then 0x1000 else 0x2000;
    assert Wrap(k * g) == k * g - 0x1_0000_0000 * q;
    assert 0x1_0000_0000 * q == (c * q) * g;
    assert Wrap(k * g) == (k - c * q) * g;
    WholeMultiple(k - c * q, g);
  }

  /** A register can only describe whole granules. */
  lemma DecodedWhole(l: Layout, reg: u32)
    ensures l.SegmentStart(reg) % l.Granule() == 0 && DecodedSize(l, reg) % l.Granule() == 0
  {
    var g := l.Granule();
    var i, j := SegmentNumbers(l, reg);
    WholeMultiple(i, g);
    WrapWhole(l, j - i + 1);
    assert l.SegmentEnd(reg) - l.SegmentStart(reg) + 1 == (j - i + 1) * g;
    WholeMultiple(0, g);
  }

  /** The granule numbers in a register. */
  lemma SegmentNumbers(l: Layout, reg: u32) returns (i: int, j: int)
    ensures l.SegmentStart(reg) == i * l.Granule()
    ensures l.SegmentEnd(reg) == j * l.Granule() + l.Granule() - 1
  {
    match l
    case Spi =>
      SpiSegments(reg);
      i, j := reg / 16 % 256, reg / 0x10_0000 % 256;
    case Fmc =>
      FmcSegments(reg);
      i, j := reg / 8 % 512, reg / 0x8_0000 % 512;
  }

  /** A base the controllers can have: 256 MiB-aligned, above 0, with the region below 2^32. */
  predicate IsBase(b: u32) {
    b % SZ_256M == 0 && 0 < b <= 0xE000_0000
  }

  predicate Fits(l: Layout, off: nat, size: nat) {
    off % l.Granule() == 0 && size % l.Granule() == 0 && size > 0 && off + size <= SZ_256M
  }

  /** Encoding a window and decoding it gives the window back. */
  lemma ComposeDecodes(l: Layout, b: u32, off: nat, size: nat)
    requires IsBase(b) && Fits(l, off, size)
    ensures var reg := l.SegmentCompose(b + off, b + off + size - 1);
      && 0 < reg < 0x1_0000_0000
      && l.SegmentStart(reg) == off && l.SegmentEnd(reg) == off + size - 1
  {
    match l
    case Spi => SpiRoundTrip(b / SZ_256M, off / 0x10_0000, size / 0x10_0000);
    case Fmc => FmcRoundTrip(b / SZ_256M, off / 0x8_0000, size / 0x8_0000);
  }

  lemma SpiRoundTrip(b: nat, o: nat, n: nat)
    requires 0 < b <= 14 && n > 0 && o + n <= 256
    ensures var start, end := SZ_256M * b + 0x10_0000 * o, SZ_256M * b + 0x10_0000 * o + 0x10_0000 * n - 1;
      var reg := Spi.SegmentCompose(start, end);
      && 0 < reg < 0x1_0000_0000
      && Spi.SegmentStart(reg) == 0x10_0000 * o && Spi.SegmentEnd(reg) == 0x10_0000 * (o + n) - 1
  {
    var start, end := SZ_256M * b + 0x10_0000 * o, SZ_256M * b + 0x10_0000 * o + 0x10_0000 * n - 1;
    SpiCompose(start, end);
    SpiNumbers(b, o, n, start, end);
    SpiSegments(Spi.SegmentCompose(start, end));
  }

  lemma SpiNumbers(b: nat, o: nat, n: nat, start: nat, end: nat)
    requires 0 < b <= 14 && n > 0 && o + n <= 256
    requires start == SZ_256M * b + 0x10_0000 * o && end == start + 0x10_0000 * n - 1
    ensures var reg := start / 0x10_0000 * 16 + end / 0x10_0000 * 0x10_0000;
      && 0 < reg < 0x1_0000_0000 && reg / 16 % 256 == o && reg / 0x10_0000 % 256 == o + n - 1
  {
    var i, j := 256 * b + o, 256 * b + o + n - 1;
    DivModUnique(start, 0x10_0000, i, 0);
    DivModUnique(end, 0x10_0000, j, 0x10_0000 - 1);
    var reg := i * 16 + j * 0x10_0000;
    DivModUnique(reg, 16, i + j * 0x1_0000, 0);
    DivModUnique(reg, 0x10_0000, j, i * 16);
    DivModUnique(i + j * 0x1_0000, 256, b + j * 256, o);
    DivModUnique(j, 256, b, o + n - 1);
  }

  lemma FmcRoundTrip(b: nat, o: nat, n: nat)
    requires 0 < b <= 14 && n > 0 && o + n <= 512
    ensures var start, end := SZ_256M * b + 0x8_0000 * o, SZ_256M * b + 0x8_0000 * o + 0x8_0000 * n - 1;
      var reg := Fmc.SegmentCompose(start, end);
      && 0 < reg < 0x1_0000_0000
      && Fmc.SegmentStart(reg) == 0x8_0000 * o && Fmc.SegmentEnd(reg) == 0x8_0000 * (o + n) - 1
  {
    var start, end := SZ_256M * b + 0x8_0000 * o, SZ_256M * b + 0x8_0000 * o + 0x8_0000 * n - 1;
    FmcCompose(start, end);
    FmcNumbers(b, o, n, start, end);
    FmcSegments(Fmc.SegmentCompose(start, end));
  }

  lemma FmcNumbers(b: nat, o: nat, n: nat, start: nat, end: nat)
    requires 0 < b <= 14 && n > 0 && o + n <= 512
    requires start == SZ_256M * b + 0x8_0000 * o && end == start + 0x8_0000 * n - 1
    ensures var reg := start / 0x8_0000 * 8 + end / 0x8_0000 * 0x8_0000;
      && 0 < reg < 0x1_0000_0000 && reg / 8 % 512 == o && reg / 0x8_0000 % 512 == o + n - 1
  {
    var i, j := 512 * b + o, 512 * b + o + n - 1;
    DivModUnique(start, 0x8_0000, i, 0);
    DivModUnique(end, 0x8_0000, j, 0x8_0000 - 1);
    var reg := i * 8 + j * 0x8_0000;
    DivModUnique(reg, 8, i + j * 0x1_0000, 0);
    DivModUnique(reg, 0x8_0000, j, i * 8);
    DivModUnique(i + j * 0x1_0000, 512, b + j * 128, o);
    DivModUnique(j, 512, b, o + n - 1);
  }

  lemma ComposeBound(l: Layout, start: u32, end: u32)
    ensures l.SegmentCompose(start, end) < 0x1_0000_0000
  {
    match l
    case Spi => SpiCompose(start, end);
    case Fmc => FmcCompose(start, end);
  }

  // ---- the controller

  /** Sizes laid out one after the other. */
  function Offset(sizes: seq<nat>, cs: nat): nat
    requires cs < |sizes| <= REGISTERS
  {
    if cs == 0 then 0 else sizes[0]
  }

  function Total(sizes: seq<nat>): nat
    requires 0 < |sizes| <= REGISTERS
  {
    if |sizes| == 1 then sizes[0] else sizes[0] + sizes[1]
  }

  /** The address belongs to the window of cs. */
  predicate InWindow(sizes: seq<nat>, base: nat, cs: nat, a: nat)
    requires cs < |sizes| <= REGISTERS
  {
    base + Offset(sizes, cs) <= a < base + Offset(sizes, cs) + sizes[cs]
  }

  class FlashWindows {
    const layout: Layout
    const mmapBase: u32
    const maxCs: nat
    const masterIdx: nat
    const pureSpiModeOnly: bool
    const regs: array<u32>           // the segment registers
    const decodeStart: array<nat>    // the driver's own record of the windows
    const decodeLen: array<nat>

    predicate Valid()
    {
      && IsBase(mmapBase) && 1 <= maxCs <= REGISTERS
      && regs.Length == decodeStart.Length == decodeLen.Length == REGISTERS && decodeStart != decodeLen
      && (layout.Fmc? ==> masterIdx == 0)
    }

    constructor (layout: Layout, mmapBase: u32, maxCs: nat, masterIdx: nat, pureSpiModeOnly: bool)
      requires IsBase(mmapBase) && 1 <= maxCs <= REGISTERS && (layout.Fmc? ==> masterIdx == 0)
      ensures Valid() && fresh(regs) && fresh(decodeStart) && fresh(decodeLen)
      ensures this.maxCs == maxCs && this.masterIdx == masterIdx && this.pureSpiModeOnly == pureSpiModeOnly
    {
      this.layout, this.mmapBase, this.maxCs := layout, mmapBase, maxCs;
      this.masterIdx, this.pureSpiModeOnly := masterIdx, pureSpiModeOnly;
      regs := new u32[REGISTERS](_ => 0);
      decodeStart := new nat[REGISTERS](_ => 0);
      decodeLen := new nat[REGISTERS](_ => 0);
    }

    /** What the register of cs decodes to is what the driver recorded. */
    predicate Agrees(cs: nat)
      requires Valid() && cs < REGISTERS
      reads regs, decodeStart, decodeLen
    {
      && mmapBase + layout.SegmentStart(regs[cs]) == decodeStart[cs]
      && DecodedSize(layout, regs[cs]) == decodeLen[cs]
    }

    /** The first |sizes| windows lie one after the other from the base, within 256 MiB;
      * registers and record agree. A window of size 0 is off. */
    ghost predicate Packed(sizes: seq<nat>)
      requires Valid()
      reads regs, decodeStart, decodeLen
    {
      && 1 <= |sizes| <= REGISTERS && Total(sizes) <= SZ_256M
      && forall cs | 0 <= cs < |sizes| :: PackedAt(sizes, cs)
    }

    ghost predicate PackedAt(sizes: seq<nat>, cs: nat)
      requires Valid() && cs < |sizes| <= REGISTERS
      reads regs, decodeStart, decodeLen
    {
      if sizes[cs] == 0 then regs[cs] == 0
      else decodeStart[cs] == mmapBase + Offset(sizes, cs) && decodeLen[cs] == sizes[cs] && Agrees(cs)
    }

    /** Windows that are packed do not overlap. */
    lemma PackedDisjoint(sizes: seq<nat>, a: nat)
      requires Valid() && Packed(sizes) && |sizes| == REGISTERS
      ensures !(InWindow(sizes, mmapBase, 0, a) && InWindow(sizes, mmapBase, 1, a))
      ensures InWindow(sizes, mmapBase, 0, a) || InWindow(sizes, mmapBase, 1, a)
        <==> mmapBase <= a < mmapBase + Total(sizes)
    {
    }

    /** The size the windows start with. */
    function UnitSize(): nat
      requires Valid()
    {
      var unit := if masterIdx != 0 then SZ_256M else SZ_2M;
      if pureSpiModeOnly then SZ_256M / maxCs / SZ_2M * SZ_2M else unit
    }

    /** Registers can only hold whole granules, so packed windows are whole granules. */
    lemma PackedWhole(sizes: seq<nat>, cs: nat)
      requires Valid() && Packed(sizes) && cs < |sizes|
      ensures sizes[cs] % layout.Granule() == 0
    {
      assert PackedAt(sizes, cs);
      DecodedWhole(layout, regs[cs]);
    }

    /** Packed windows are the ones in the registers. */
    lemma PackedIsRead(sizes: seq<nat>, cs: nat)
      requires Valid() && Packed(sizes) && cs < |sizes|
      ensures sizes[cs] == DecodedSize(layout, regs[cs])
    {
      assert PackedAt(sizes, cs);
    }

    /** That is 2 MiB, or 256 MiB behind a mux; a controller on its own splits the 256 MiB. */
    lemma UnitSizeIs()
      requires Valid()
      ensures !pureSpiModeOnly ==> UnitSize() == if masterIdx == 0 then 0x20_0000 else 0x1000_0000
      ensures pureSpiModeOnly ==> UnitSize() == if maxCs == 1 then 0x1000_0000 else 0x800_0000
    {
    }

    /** What goes into the register for a window. */
    function Composed(start: u32, size: u32): (reg: u32)
      requires Valid()
    {
      var end := Wrap(start + size - 1);
      ComposeBound(layout, start, end);
      layout.SegmentCompose(start, end)
    }

    lemma ComposedDecodes(start: u32, size: u32)
      requires Valid() && start >= mmapBase && Fits(layout, start - mmapBase, size)
      ensures mmapBase + layout.SegmentStart(Composed(start, size)) == start
      ensures DecodedSize(layout, Composed(start, size)) == size
    {
      WrapSmall(start + size - 1);
      WrapSmall(size);
      ComposeDecodes(layout, mmapBase, start - mmapBase, size);
    }

    /** Program one window. */
    method SetWindow(cs: nat, start: u32, size: u32)
      requires Valid() && cs < maxCs
      modifies regs, decodeStart
      ensures decodeStart[cs] == start && regs[cs] == Composed(start, size)
      ensures forall j | 0 <= j < REGISTERS && j != cs ::
        regs[j] == old(regs[j]) && decodeStart[j] == old(decodeStart[j])
    {
      var end := Wrap(start + size - 1);
      ComposeBound(layout, start, end);
      regs[cs] := layout.SegmentCompose(start, end);
      decodeStart[cs] := start;
    }

    /** The window of cs has the size it starts with and follows the ones before. */
    predicate FirstAt(cs: nat)
      requires Valid() && cs < REGISTERS
      reads regs, decodeStart, decodeLen
    {
      decodeStart[cs] == FirstStart(cs) && decodeLen[cs] == UnitSize() && Agrees(cs)
    }

    function FirstStart(cs: nat): nat
      requires Valid()
    {
      mmapBase + cs * UnitSize()
    }

    lemma FirstFollows(cs: nat)
      requires Valid() && cs < if masterIdx != 0 then 1 else maxCs
      ensures FirstStart(0) == mmapBase && FirstStart(cs) + UnitSize() == FirstStart(cs + 1)
      ensures UnitSize() > 0 && FirstStart(cs + 1) <= mmapBase + SZ_256M
    {
      UnitFits();
      MulMono(cs + 1, if masterIdx != 0 then 1 else maxCs, UnitSize());
    }

    lemma FirstPacked(n: nat)
      requires Valid() && n == (if masterIdx != 0 then 1 else maxCs) && forall k: nat | k < n :: FirstAt(k)
      ensures Packed(seq(n, _ => UnitSize()))
    {
      var sizes := seq(n, _ => UnitSize());
      UnitFits();
      forall k: nat | k < n
        ensures PackedAt(sizes, k)
      {
        assert FirstAt(k);
      }
    }

    /** Program the first window of a chip select. */
    method FirstWindow(cs: nat, start: u32)
      requires Valid() && cs < (if masterIdx != 0 then 1 else maxCs) && start == FirstStart(cs)
      modifies regs, decodeStart, decodeLen
      ensures FirstAt(cs) && forall j: nat | j < cs && old(FirstAt(j)) :: FirstAt(j)
      ensures forall j | 0 <= j < REGISTERS && j != cs ::
        regs[j] == old(regs[j]) && decodeStart[j] == old(decodeStart[j]) && decodeLen[j] == old(decodeLen[j])
    {
      UnitOffset(cs);
      ComposedDecodes(start, UnitSize());
      SetWindow(cs, start, UnitSize());
      decodeLen[cs] := UnitSize();
    }

    /** Give every chip select its first window. */
    method DecodeRangePreInit()
      requires Valid()
      modifies regs, decodeStart, decodeLen
      ensures Packed(seq(if masterIdx != 0 then 1 else maxCs, _ => UnitSize()))
    {
      var max := if masterIdx != 0 then 1 else maxCs;
      var unit := UnitSize();
      UnitFits();
      var preEnd := 0;
      for cs := 0 to max
        invariant cs > 0 ==> preEnd == FirstStart(cs)
        invariant forall k: nat | k < cs :: FirstAt(k)
      {
        var start := if cs == 0 then mmapBase else preEnd;
        var end := start + unit - 1;
        FirstFollows(cs);
        FirstWindow(cs, start);
        preEnd := end + 1;
      }
      FirstPacked(max);
    }

    lemma UnitFits()
      requires Valid()
      ensures var n := if masterIdx != 0 then 1 else maxCs;
        UnitSize() > 0 && UnitSize() % layout.Granule() == 0 && n * UnitSize() <= SZ_256M
    {
    }

    lemma UnitOffset(cs: nat)
      requires Valid() && cs < if masterIdx != 0 then 1 else maxCs
      ensures Fits(layout, cs * UnitSize(), UnitSize())
    {
      UnitFits();
    }

    /** The sizes in the registers. */
    ghost predicate InRegisters(sizes: seq<u32>)
      requires Valid()
      reads regs
    {
      |sizes| == maxCs && forall cs | 0 <= cs < maxCs :: sizes[cs] == DecodedSize(layout, regs[cs])
    }

    method ReadSizes() returns (sizes: seq<u32>, total: u32)
      requires Valid()
      ensures InRegisters(sizes) && total == Wrap(Total(sizes))
    {
      sizes, total := [], 0;
      for cs := 0 to maxCs
        invariant |sizes| == cs && total == if cs == 0 then 0 else Wrap(Total(sizes))
        invariant forall k | 0 <= k < cs :: sizes[k] == DecodedSize(layout, regs[k])
      {
        var reg := regs[cs];
        var size := DecodedSize(layout, reg);
        TotalStep(sizes, size, total);
        sizes := sizes + [size];
        total := Wrap(total + size);
      }
    }

    lemma TotalStep(sizes: seq<u32>, size: u32, total: u32)
      requires |sizes| < REGISTERS && total == if |sizes| == 0 then 0 else Wrap(Total(sizes))
      ensures Wrap(total + size) == Wrap(Total(sizes + [size]))
    {
      if |sizes| == 1 { WrapSmall(sizes[0]); }
    }

    /** The size of the other window, if there is one. */
    function Others(sizes: seq<u32>, cur: nat): nat
      requires cur < |sizes| <= REGISTERS
    {
      Total(sizes) - sizes[cur]
    }

    /** Give the current chip select a window of the size of its flash and move the others up
      * behind it, if that fits; all in 32 bits. */
    method DecodeRangeReinit(cur: nat, flashSize: u32) returns (ghost sizes: seq<u32>)
      requires Valid() && cur < maxCs
      modifies regs, decodeStart, decodeLen
      ensures old(InRegisters(sizes))
      ensures Wrap(Others(sizes, cur) + flashSize) > SZ_256M ==>
        && regs[..] == old(regs[..]) && decodeStart[..] == old(decodeStart[..])
        && decodeLen[..] == old(decodeLen[..])
      ensures Wrap(Others(sizes, cur) + flashSize) <= SZ_256M ==>
        var changed := sizes[cur := flashSize];
        && Untouched(changed, maxCs) && (forall k: nat | k < maxCs && changed[k] > 0 :: AppliedAt(changed, k))
        && (Packed(changed) <==>
              Packable(changed, cur, old(regs[..]), old(decodeLen[..])) && Total(changed) <= SZ_256M)
    {
      var now, total := ReadSizes();
      sizes := now;
      CutTotal(now, cur, flashSize);
      if Wrap(total - now[cur] + flashSize) > SZ_256M {
        return;
      }
      ApplySizes(cur, now[cur := flashSize]);
    }

    lemma CutTotal(sizes: seq<u32>, cur: nat, flashSize: u32)
      requires cur < |sizes| <= REGISTERS
      ensures Wrap(Wrap(Total(sizes)) - sizes[cur] + flashSize) == Wrap(Others(sizes, cur) + flashSize)
      ensures Total(sizes[cur := flashSize]) == Others(sizes, cur) + flashSize
    {
    }

    /** From packed windows, only the new size and a first window that is off matter. */
    lemma PackedIsPackable(sizes: seq<u32>, cur: nat, flashSize: u32)
      requires Valid() && Packed(sizes) && |sizes| == maxCs && cur < maxCs
      ensures InRegisters(sizes)
      ensures Packable(sizes[cur := flashSize], cur, regs[..], decodeLen[..]) <==>
        && flashSize % layout.Granule() == 0 && (flashSize == 0 ==> sizes[cur] == 0)
        && FirstLeads(sizes[cur := flashSize])
    {
      forall cs: nat | cs < maxCs
        ensures sizes[cs] == DecodedSize(layout, regs[cs]) && sizes[cs] % layout.Granule() == 0
        ensures PackedAt(sizes, cs) && (sizes[cs] == 0 <==> regs[cs] == 0)
      {
        PackedIsRead(sizes, cs);
        PackedWhole(sizes, cs);
        assert PackedAt(sizes, cs);
      }
      var changed := sizes[cur := flashSize];
      if flashSize % layout.Granule() == 0 && (flashSize == 0 ==> sizes[cur] == 0) && FirstLeads(changed) {
        forall k: nat | k < maxCs
          ensures PackableAt(changed, cur, regs[..], decodeLen[..], k)
        {
        }
      }
      if Packable(changed, cur, regs[..], decodeLen[..]) {
        assert PackableAt(changed, cur, regs[..], decodeLen[..], cur);
      }
    }

    /** A window behind a first one that is off is placed at address 0, not at the base. */
    predicate FirstLeads(sizes: seq<u32>)
      requires |sizes| == maxCs
    {
      maxCs == REGISTERS && sizes[0] == 0 ==> sizes[1] == 0
    }

    /** What the sizes need to be laid out right: whole granules, a record of the windows that
      * are only moved, and a window of size 0 off. */
    predicate Packable(sizes: seq<u32>, cur: nat, regs: seq<u32>, lens: seq<nat>)
      requires Valid() && |sizes| == maxCs && |regs| == |lens| == REGISTERS
    {
      FirstLeads(sizes) && forall k: nat | k < maxCs :: PackableAt(sizes, cur, regs, lens, k)
    }

    predicate PackableAt(sizes: seq<u32>, cur: nat, regs: seq<u32>, lens: seq<nat>, k: nat)
      requires Valid() && k < |sizes| == maxCs && |regs| == |lens| == REGISTERS
    {
      && sizes[k] % layout.Granule() == 0
      && (if sizes[k] == 0 then regs[k] == 0 else k == cur || lens[k] == sizes[k])
    }

    /** Where a window is placed. */
    function Placed(sizes: seq<u32>, cs: nat): u32
      requires Valid() && cs < |sizes| == maxCs
    {
      if cs == 0 then mmapBase else if sizes[0] == 0 then 0 else Wrap(mmapBase + sizes[0])
    }

    /** An enabled window after laying out. */
    predicate AppliedAt(sizes: seq<u32>, cs: nat)
      requires Valid() && cs < |sizes| == maxCs
      reads regs, decodeStart
    {
      decodeStart[cs] == Placed(sizes, cs) && regs[cs] == Composed(Placed(sizes, cs), sizes[cs])
    }

    /** The driver's record of the lengths after laying out. */
    predicate RecordedAt(sizes: seq<u32>, cur: nat, cs: nat, len: nat)
      requires Valid() && cs < |sizes| == maxCs
      reads decodeLen
    {
      decodeLen[cs] == if cs == cur && sizes[cs] > 0 then sizes[cs] else len
    }

    lemma AppliedAgrees(sizes: seq<u32>, k: nat)
      requires Valid() && |sizes| == maxCs && Total(sizes) <= SZ_256M && FirstLeads(sizes) && k < maxCs
      requires sizes[k] > 0 && AppliedAt(sizes, k) && decodeLen[k] == sizes[k]
      requires forall j: nat | j < maxCs :: sizes[j] % layout.Granule() == 0
      ensures PackedAt(sizes, k)
    {
      PlacedInside(sizes, k);
      ComposedDecodes(Placed(sizes, k), sizes[k]);
    }

    lemma PlacedInside(sizes: seq<u32>, k: nat)
      requires Valid() && |sizes| == maxCs && Total(sizes) <= SZ_256M && FirstLeads(sizes) && k < maxCs
      requires sizes[k] > 0 && forall j: nat | j < maxCs :: sizes[j] % layout.Granule() == 0
      ensures Placed(sizes, k) == mmapBase + Offset(sizes, k) && Fits(layout, Offset(sizes, k), sizes[k])
    {
      if k == 0 {
        InitialOffset();
      } else {
        WrapSmall(mmapBase + sizes[0]);
      }
    }

    lemma InitialOffset()
      ensures 0 % layout.Granule() == 0
    {
    }

    /** Lay the windows out; a size of 0 leaves a window alone. */
    method ApplySizes(cur: nat, sizes: seq<u32>)
      requires Valid() && |sizes| == maxCs && cur < maxCs
      modifies regs, decodeStart, decodeLen
      ensures forall k: nat | k < maxCs && sizes[k] > 0 :: AppliedAt(sizes, k)
      ensures Untouched(sizes, maxCs)
      ensures forall k: nat | k < maxCs :: RecordedAt(sizes, cur, k, old(decodeLen[k]))
      ensures Packed(sizes) <==>
        Packable(sizes, cur, old(regs[..]), old(decodeLen[..])) && Total(sizes) <= SZ_256M
    {
      ghost var was, lens := regs[..], decodeLen[..];
      LayOut(cur, sizes);
      PackedExact(cur, sizes, was, lens);
    }

    /** Program one window; only the length of the current one is recorded. */
    method ApplyWindow(cur: nat, sizes: seq<u32>, cs: nat, start: u32)
      requires Valid() && cs < |sizes| == maxCs && sizes[cs] > 0 && start == Placed(sizes, cs)
      modifies regs, decodeStart, decodeLen
      ensures AppliedAt(sizes, cs) && RecordedAt(sizes, cur, cs, old(decodeLen[cs]))
      ensures forall j | 0 <= j < REGISTERS && j != cs ::
        regs[j] == old(regs[j]) && decodeStart[j] == old(decodeStart[j]) && decodeLen[j] == old(decodeLen[j])
      ensures forall j: nat | j < cs && old(AppliedAt(sizes, j)) :: AppliedAt(sizes, j)
    {
      SetWindow(cs, start, sizes[cs]);
      if cs == cur {
        decodeLen[cs] := sizes[cs];
      }
    }

    /** Windows from cs on, and those of size 0, are as they were. */
    twostate predicate Untouched(sizes: seq<u32>, cs: nat)
      requires Valid() && |sizes| == maxCs
      reads regs, decodeStart, decodeLen
    {
      forall k: nat | k < maxCs && (k >= cs || sizes[k] == 0) ::
        regs[k] == old(regs[k]) && decodeStart[k] == old(decodeStart[k]) && decodeLen[k] == old(decodeLen[k])
    }

    method LayOut(cur: nat, sizes: seq<u32>)
      requires Valid() && |sizes| == maxCs && cur < maxCs
      modifies regs, decodeStart, decodeLen
      ensures forall k: nat | k < maxCs && sizes[k] > 0 :: AppliedAt(sizes, k)
      ensures Untouched(sizes, maxCs)
      ensures forall k: nat | k < maxCs :: RecordedAt(sizes, cur, k, old(decodeLen[k]))
    {
      var preEnd: u32 := 0;
      for cs := 0 to maxCs
        invariant cs == 0 ==> preEnd == 0
        invariant cs == 1 < maxCs ==> preEnd == Placed(sizes, 1)
        invariant Untouched(sizes, cs)
        invariant forall k: nat | k < cs :: RecordedAt(sizes, cur, k, old(decodeLen[k]))
        invariant forall k: nat | k < cs && sizes[k] > 0 :: AppliedAt(sizes, k)
      {
        var size := sizes[cs];
        if size == 0 {
          continue;
        }
        var start := if cs == 0 then mmapBase else preEnd;
        ApplyWindow(cur, sizes, cs, start);
        preEnd := NextStart(start, size);
      }
    }

    /** The address behind a window. */
    function NextStart(start: u32, size: u32): (next: u32)
      ensures next == Wrap(start + size)
    {
      var end: int := Wrap(start + size - 1);
      Wrap(end + 1)
    }

    /** What laying out gives is packed exactly when the sizes were packable and fit. */
    lemma PackedExact(cur: nat, sizes: seq<u32>, was: seq<u32>, lens: seq<nat>)
      requires Valid() && |sizes| == maxCs && cur < maxCs && |was| == |lens| == REGISTERS
      requires forall k: nat | k < maxCs && sizes[k] > 0 :: AppliedAt(sizes, k)
      requires forall k: nat | k < maxCs && sizes[k] == 0 :: regs[k] == was[k]
      requires forall k: nat | k < maxCs :: RecordedAt(sizes, cur, k, lens[k])
      ensures Packed(sizes) <==> Packable(sizes, cur, was, lens) && Total(sizes) <= SZ_256M
    {
      if Packed(sizes) {
        PackedWasPackable(cur, sizes, was, lens);
      }
      if Packable(sizes, cur, was, lens) && Total(sizes) <= SZ_256M {
        forall k: nat | k < maxCs
          ensures PackedAt(sizes, k)
        {
          assert PackableAt(sizes, cur, was, lens, k) && RecordedAt(sizes, cur, k, lens[k]);
          if sizes[k] > 0 { PackableAgrees(cur, sizes, was, lens, k); }
        }
      }
    }

    lemma PackableAgrees(cur: nat, sizes: seq<u32>, was: seq<u32>, lens: seq<nat>, k: nat)
      requires Valid() && |sizes| == maxCs && k < maxCs && |was| == |lens| == REGISTERS
      requires Packable(sizes, cur, was, lens) && Total(sizes) <= SZ_256M
      requires sizes[k] > 0 && AppliedAt(sizes, k) && RecordedAt(sizes, cur, k, lens[k])
      ensures PackedAt(sizes, k)
    {
      assert PackableAt(sizes, cur, was, lens, k);
      forall j: nat | j < maxCs
        ensures sizes[j] % layout.Granule() == 0
      {
        assert PackableAt(sizes, cur, was, lens, j);
      }
      AppliedAgrees(sizes, k);
    }

    lemma PackedWasPackable(cur: nat, sizes: seq<u32>, was: seq<u32>, lens: seq<nat>)
      requires Valid() && |sizes| == maxCs && cur < maxCs && |was| == |lens| == REGISTERS
      requires forall k: nat | k < maxCs && sizes[k] > 0 :: AppliedAt(sizes, k)
      requires forall k: nat | k < maxCs && sizes[k] == 0 :: regs[k] == was[k]
      requires forall k: nat | k < maxCs :: RecordedAt(sizes, cur, k, lens[k])
      requires Packed(sizes)
      ensures Packable(sizes, cur, was, lens)
    {
      forall k: nat | k < maxCs
        ensures PackableAt(sizes, cur, was, lens, k) && PackedAt(sizes, k)
      {
        assert PackedAt(sizes, k) && RecordedAt(sizes, cur, k, lens[k]);
        PackedWhole(sizes, k);
      }
      if maxCs == REGISTERS && sizes[1] > 0 {
        assert PackedAt(sizes, 1) && AppliedAt(sizes, 1);
        assert Placed(sizes, 1) == mmapBase + sizes[0];
      }
    }
  }
}
