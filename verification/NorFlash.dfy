/** The NOR block device over the page and sector commands
  * (src/spi/norflashblockdevice.rs, src/spi/norflash.rs). */
module NorFlash {
  import opened Bits
  import opened Bytes

  const PAGE_SIZE: nat := 256
  const SECTOR_SIZE: nat := 4096
  const THREE_BYTE_LIMIT: nat := 0x100_0000
  const MFR_WINBOND: nat := 0xEF
  const MFR_MXIC: nat := 0xC2

  type Memory = seq<bv8>

  // ---- what the chip's commands do to its memory

  function Erased(mem: Memory, lo: nat, hi: nat): (r: Memory)
    ensures |r| == |mem|
  {
    seq(|mem|, p requires 0 <= p < |mem| => if lo <= p < hi then 0xFF else mem[p])
  }

  /** Programming only clears bits. */
  function Overlay(mem: Memory, a: nat, data: seq<bv8>): (r: Memory)
    ensures |r| == |mem|
  {
    seq(|mem|, p requires 0 <= p < |mem| => if a <= p < a + |data| then mem[p] & data[p - a] else mem[p])
  }

  /** A page program starting inside a page wraps around to the start of that page. */
  function ProgramPage(mem: Memory, a: nat, data: seq<bv8>): (r: Memory)
    requires |data| == PAGE_SIZE
    ensures |r| == |mem|
  {
    seq(|mem|, p requires 0 <= p < |mem| =>
      if p / PAGE_SIZE == a / PAGE_SIZE then mem[p] & data[(p % PAGE_SIZE + PAGE_SIZE - a % PAGE_SIZE) % PAGE_SIZE]
      else mem[p])
  }

  /** Byte i of the data goes to the i-th place from a on, around the end of the page. */
  lemma PageWraps(mem: Memory, a: nat, data: seq<bv8>, i: nat)
    requires |data| == PAGE_SIZE && i < 256
    ensures
      var p := a / 256 * 256 + (a % 256 + i) % 256;
      p < |mem| ==> ProgramPage(mem, a, data)[p] == mem[p] & data[i]
  {
    var o, j := a % 256, (a % 256 + i) % 256;
    var p := a / 256 * 256 + j;
    DivModUnique(p, 256, a / 256, j);
    assert (j + 256 - o) % 256 == i;
  }

  lemma AlignedPage(mem: Memory, a: nat, data: seq<bv8>)
    requires |data| == PAGE_SIZE && a % PAGE_SIZE == 0
    ensures ProgramPage(mem, a, data) == Overlay(mem, a, data)
  {
  }

  lemma OverlayAppend(mem: Memory, a: nat, d1: seq<bv8>, d2: seq<bv8>)
    ensures Overlay(Overlay(mem, a, d1), a + |d1|, d2) == Overlay(mem, a, d1 + d2)
  {
  }

  lemma ErasedAppend(mem: Memory, lo: nat, mid: nat, hi: nat)
    requires lo <= mid <= hi
    ensures Erased(Erased(mem, lo, mid), mid, hi) == Erased(mem, lo, hi)
  {
  }

  // ---- what the block device's operations do

  /** Where an erase of the sector at a goes: the chip gets only the low three address bytes,
    * and of these it does not decode what is beyond its size. */
  function EraseStart(mem: Memory, a: nat): nat
    requires mem != []
  {
    a % THREE_BYTE_LIMIT % |mem|
  }

  /** Erase count sectors from a on. */
  function EraseEffect(mem: Memory, a: nat, count: nat): (r: Memory)
    requires mem != []
    ensures |r| == |mem|
    decreases count
  {
    if count == 0 then mem
    else
      var low := EraseStart(mem, a);
      EraseEffect(Erased(mem, low, low + SECTOR_SIZE), a + SECTOR_SIZE, count - 1)
  }

  /** Program page-sized chunks from a on. */
  function ProgramEffect(mem: Memory, a: nat, data: seq<bv8>): (r: Memory)
    requires mem != [] && |data| % PAGE_SIZE == 0
    ensures |r| == |mem|
    decreases |data|
  {
    if data == [] then mem
    else ProgramEffect(ProgramPage(mem, a % |mem|, data[..PAGE_SIZE]), a + PAGE_SIZE, data[PAGE_SIZE..])
  }

  /** The byte at an address. */
  function Cell(mem: Memory, a: nat): bv8
    requires mem != []
  {
    mem[a % |mem|]
  }

  /** Read n bytes from a on; behind its last byte the chip goes on with the first. */
  function ReadEffect(mem: Memory, a: nat, n: nat): (data: seq<bv8>)
    requires mem != []
    ensures |data| == n && forall i | 0 <= i < n :: data[i] == Cell(mem, a + i)
  {
    seq(n, i requires 0 <= i < n => Cell(mem, a + i))
  }

  lemma InRange(a: nat, m: nat)
    requires a < m
    ensures a % m == a
  {
    DivModUnique(a, m, 0, a);
  }

  /** Inside the memory that is a slice. */
  lemma ReadIsSlice(mem: Memory, a: nat, n: nat)
    requires mem != [] && a + n <= |mem|
    ensures ReadEffect(mem, a, n) == mem[a..a + n]
  {
    forall i: nat | i < n
      ensures ReadEffect(mem, a, n)[i] == mem[a..a + n][i]
    {
      InRange(a + i, |mem|);
    }
  }

  lemma {:induction false} EraseEffectSnoc(mem: Memory, a: nat, count: nat)
    requires mem != []
    ensures var low := EraseStart(mem, a + SECTOR_SIZE * count);
      EraseEffect(mem, a, count + 1) == Erased(EraseEffect(mem, a, count), low, low + SECTOR_SIZE)
    decreases count
  {
    if count > 0 {
      var low := EraseStart(mem, a);
      EraseEffectSnoc(Erased(mem, low, low + SECTOR_SIZE), a + SECTOR_SIZE, count - 1);
    }
  }

  lemma {:induction false} ProgramEffectSnoc(mem: Memory, a: nat, data: seq<bv8>, chunk: seq<bv8>)
    requires mem != [] && |data| % PAGE_SIZE == 0 && |chunk| == PAGE_SIZE
    ensures ProgramEffect(mem, a, data + chunk)
      == ProgramPage(ProgramEffect(mem, a, data), (a + |data|) % |mem|, chunk)
    decreases |data|
  {
    if data == [] {
      assert (data + chunk)[..PAGE_SIZE] == chunk;
      assert (data + chunk)[PAGE_SIZE..] == [];
    } else {
      assert (data + chunk)[..PAGE_SIZE] == data[..PAGE_SIZE];
      assert (data + chunk)[PAGE_SIZE..] == data[PAGE_SIZE..] + chunk;
      ProgramEffectSnoc(ProgramPage(mem, a % |mem|, data[..PAGE_SIZE]), a + PAGE_SIZE, data[PAGE_SIZE..], chunk);
    }
  }

  lemma ProgramNext(mem: Memory, a: nat, data: seq<bv8>, k: nat)
    requires mem != [] && k % PAGE_SIZE == 0 && k + PAGE_SIZE <= |data|
    ensures ProgramEffect(mem, a, data[..k + PAGE_SIZE])
      == ProgramPage(ProgramEffect(mem, a, data[..k]), (a + k) % |mem|, data[k..k + PAGE_SIZE])
  {
    ProgramEffectSnoc(mem, a, data[..k], data[k..k + PAGE_SIZE]);
    assert data[..k] + data[k..k + PAGE_SIZE] == data[..k + PAGE_SIZE];
  }

  // ---- when they do what they should

  lemma {:induction false} EraseIsExact(mem: Memory, a: nat, count: nat)
    requires mem != [] && a + SECTOR_SIZE * count <= Min(|mem|, THREE_BYTE_LIMIT)
    ensures EraseEffect(mem, a, count) == Erased(mem, a, a + SECTOR_SIZE * count)
    decreases count
  {
    if count == 0 {
      ErasedNothing(mem, a);
    } else {
      InRange(a, THREE_BYTE_LIMIT);
      InRange(a, |mem|);
      EraseIsExact(Erased(mem, a, a + SECTOR_SIZE), a + SECTOR_SIZE, count - 1);
      ErasedAppend(mem, a, a + SECTOR_SIZE, a + SECTOR_SIZE * count);
    }
  }

  /** No erase reaches beyond the three-byte addresses. */
  lemma {:induction false} EraseStaysLow(mem: Memory, a: nat, count: nat, p: nat)
    requires a % SECTOR_SIZE == 0 && THREE_BYTE_LIMIT <= p < |mem|
    ensures EraseEffect(mem, a, count)[p] == mem[p]
    decreases count
  {
    if count > 0 {
      InRange(a % THREE_BYTE_LIMIT, |mem|);
      var low := EraseStart(mem, a);
      assert low + SECTOR_SIZE <= THREE_BYTE_LIMIT;
      EraseStaysLow(Erased(mem, low, low + SECTOR_SIZE), a + SECTOR_SIZE, count - 1, p);
    }
  }

  ghost predicate EraseOk(mem: Memory, a: nat, count: nat)
    requires mem != []
  {
    EraseEffect(mem, a, count) == Erased(mem, a, a + SECTOR_SIZE * count)
  }

  lemma EraseMisses(mem: Memory, a: nat, count: nat)
    requires a % SECTOR_SIZE == 0 && THREE_BYTE_LIMIT < a + SECTOR_SIZE * count <= |mem|
    requires count > 0 && forall p | 0 <= p < |mem| :: mem[p] == 0
    ensures !EraseOk(mem, a, count)
  {
    var p := a + SECTOR_SIZE * count - 1;
    EraseStaysLow(mem, a, count, p);
    assert Erased(mem, a, p + 1)[p] == 0xFF;
  }

  /** Erase clears exactly the sectors asked for, whatever they held. */
  ghost predicate EraseExact(size: nat, a: nat, count: nat)
    requires size > 0
  {
    forall mem: Memory | |mem| == size :: EraseOk(mem, a, count)
  }

  lemma EraseInexact(size: nat, a: nat, count: nat, zeros: Memory)
    requires a % SECTOR_SIZE == 0 && THREE_BYTE_LIMIT < a + SECTOR_SIZE * count <= size && count > 0
    requires |zeros| == size && forall p | 0 <= p < size :: zeros[p] == 0
    ensures !EraseExact(size, a, count)
  {
    EraseMisses(zeros, a, count);
  }

  /** It does so if and only if all the sectors have three-byte addresses. */
  lemma EraseExactIff(size: nat, a: nat, count: nat)
    requires a % SECTOR_SIZE == 0 && a + SECTOR_SIZE * count <= size && size > 0
    ensures EraseExact(size, a, count) <==> count == 0 || a + 4096 * count <= 0x100_0000
  {
    if count == 0 {
      forall mem: Memory | |mem| == size { ErasedNothing(mem, a); }
    } else if a + SECTOR_SIZE * count > THREE_BYTE_LIMIT {
      EraseInexact(size, a, count, seq(size, _ => 0));
    } else {
      forall mem: Memory | |mem| == size { EraseIsExact(mem, a, count); }
    }
  }

  lemma ErasedNothing(mem: Memory, a: nat)
    ensures Erased(mem, a, a) == mem
  {
  }

  lemma OverlaySplit(mem: Memory, a: nat, data: seq<bv8>, n: nat)
    requires n <= |data|
    ensures Overlay(Overlay(mem, a, data[..n]), a + n, data[n..]) == Overlay(mem, a, data)
  {
    OverlayAppend(mem, a, data[..n], data[n..]);
    assert data[..n] + data[n..] == data;
  }

  lemma OverlayNothing(mem: Memory, a: nat)
    ensures Overlay(mem, a, []) == mem
  {
  }

  lemma NextPage(k: nat)
    ensures (k + PAGE_SIZE) % PAGE_SIZE == k % PAGE_SIZE
  {
  }

  /** Between two page starts there is a page. */
  lemma PageFits(k: nat, n: nat)
    requires k % PAGE_SIZE == 0 && n % PAGE_SIZE == 0 && k < n
    ensures k + PAGE_SIZE <= n
  {
  }

  lemma ProgramFirst(mem: Memory, a: nat, chunk: seq<bv8>)
    requires |chunk| == PAGE_SIZE && a % PAGE_SIZE == 0 && a < |mem|
    ensures ProgramPage(mem, a % |mem|, chunk) == Overlay(mem, a, chunk)
  {
    InRange(a, |mem|);
    AlignedPage(mem, a, chunk);
  }

  lemma {:induction false} ProgramIsExact(mem: Memory, a: nat, data: seq<bv8>)
    requires mem != [] && |data| % PAGE_SIZE == 0 && a % PAGE_SIZE == 0 && a + |data| <= |mem|
    ensures ProgramEffect(mem, a, data) == Overlay(mem, a, data)
    decreases |data|
  {
    if data == [] {
      OverlayNothing(mem, a);
    } else {
      PageFits(0, |data|);
      NextPage(a);
      NextPage(|data| - PAGE_SIZE);
      ProgramFirst(mem, a, data[..PAGE_SIZE]);
      ProgramIsExact(Overlay(mem, a, data[..PAGE_SIZE]), a + PAGE_SIZE, data[PAGE_SIZE..]);
      OverlaySplit(mem, a, data, PAGE_SIZE);
    }
  }

  /** A byte once cleared stays clear. */
  lemma {:induction false} ClearedStays(mem: Memory, a: nat, data: seq<bv8>, p: nat)
    requires |data| % PAGE_SIZE == 0 && p < |mem| && mem[p] == 0
    ensures ProgramEffect(mem, a, data)[p] == 0
    decreases |data|
  {
    if data != [] {
      ClearedStays(ProgramPage(mem, a % |mem|, data[..PAGE_SIZE]), a + PAGE_SIZE, data[PAGE_SIZE..], p);
    }
  }

  /** Zeros programmed from inside a page also clear the start of that page. */
  lemma ProgramSpills(mem: Memory, a: nat, data: seq<bv8>)
    requires |data| % PAGE_SIZE == 0 && data != [] && a % PAGE_SIZE != 0 && a < |mem|
    requires (forall p | 0 <= p < |mem| :: mem[p] == 0xFF) && forall i | 0 <= i < |data| :: data[i] == 0
    ensures ProgramEffect(mem, a, data) != Overlay(mem, a, data)
  {
    var p := a - a % PAGE_SIZE;
    InRange(a, |mem|);
    var first := ProgramPage(mem, a, data[..PAGE_SIZE]);
    PageStartCleared(mem, a, data[..PAGE_SIZE], p);
    NextPage(|data| - PAGE_SIZE);
    ClearedStays(first, a + PAGE_SIZE, data[PAGE_SIZE..], p);
    OverlayBelow(mem, a, data, p);
  }

  lemma OverlayBelow(mem: Memory, a: nat, data: seq<bv8>, p: nat)
    requires p < a && p < |mem|
    ensures Overlay(mem, a, data)[p] == mem[p]
  {
  }

  lemma PageStartCleared(mem: Memory, a: nat, chunk: seq<bv8>, p: nat)
    requires |chunk| == PAGE_SIZE && (forall i | 0 <= i < |chunk| :: chunk[i] == 0)
    requires p == a - a % PAGE_SIZE && p < |mem|
    ensures ProgramPage(mem, a, chunk)[p] == 0
  {
    assert p / PAGE_SIZE == a / PAGE_SIZE;
  }

  /** Programming n bytes at a does what it should for every memory and all data. */
  ghost predicate ProgramExact(size: nat, a: nat, n: nat)
    requires n % PAGE_SIZE == 0 && size > 0
  {
    forall mem: Memory, data: seq<bv8> | |mem| == size && |data| == n ::
      ProgramEffect(mem, a, data) == Overlay(mem, a, data)
  }

  lemma ProgramInexact(size: nat, a: nat, n: nat)
    requires n % PAGE_SIZE == 0 && n > 0 && a + n <= size && a % PAGE_SIZE != 0
    ensures !ProgramExact(size, a, n)
  {
    var blank: Memory, zeros: seq<bv8> := seq(size, _ => 0xFF), seq(n, _ => 0);
    ProgramSpills(blank, a, zeros);
  }

  /** It does so if and only if a is page-aligned; otherwise a chunk wraps inside its page. */
  lemma ProgramExactIff(size: nat, a: nat, n: nat)
    requires n % PAGE_SIZE == 0 && a + n <= size && size > 0
    ensures ProgramExact(size, a, n) <==> n == 0 || a % 256 == 0
  {
    if n == 0 {
      forall mem: Memory | |mem| == size { OverlayNothing(mem, a); }
    } else if a % PAGE_SIZE != 0 {
      ProgramInexact(size, a, n);
    } else {
      forall mem: Memory, data: seq<bv8> | |mem| == size && |data| == n { ProgramIsExact(mem, a, data); }
    }
  }

  /** Erasing sectors, programming a page-aligned range inside them and reading it back gives
    * the data; the rest of the sectors is blank and everything else is as it was. */
  lemma EraseProgramRead(mem: Memory, start: nat, count: nat, a: nat, data: seq<bv8>)
    requires mem != [] && start % SECTOR_SIZE == 0 && start + SECTOR_SIZE * count <= Min(|mem|, THREE_BYTE_LIMIT)
    requires a % PAGE_SIZE == 0 && |data| % PAGE_SIZE == 0
    requires start <= a && a + |data| <= start + SECTOR_SIZE * count
    ensures var after := ProgramEffect(EraseEffect(mem, start, count), a, data);
      && ReadEffect(after, a, |data|) == data
      && (forall p | 0 <= p < |mem| && !(start <= p < start + SECTOR_SIZE * count) :: after[p] == mem[p])
      && (forall p | start <= p < start + SECTOR_SIZE * count && !(a <= p < a + |data|) :: after[p] == 0xFF)
  {
    EraseIsExact(mem, start, count);
    ProgramIsExact(EraseEffect(mem, start, count), a, data);
    forall i | 0 <= i < |data|
      ensures Overlay(Erased(mem, start, start + SECTOR_SIZE * count), a, data)[a + i] == data[i]
    {
      BlankTakes(data[i]);
    }
    ReadIsSlice(ProgramEffect(EraseEffect(mem, start, count), a, data), a, |data|);
  }

  lemma BlankTakes(d: bv8)
    ensures 0xFF & d == d
  {
  }

  // ---- the chip

  /** A NOR chip: it does not decode address bits beyond its size, takes erase and program
    * commands only with its write-enable latch set, and nothing but a status read while one is
    * in progress. */
  class NorChip {
    var mem: Memory
    var wel: bool
    var busy: nat                 // status reads until the command in progress is done
    var started: nat              // commands started so far
    const latency: nat -> nat     // how long command n takes

    constructor (mem: Memory, latency: nat -> nat)
      requires mem != []
      ensures this.mem == mem && busy == 0 && !wel
    {
      this.mem, this.latency := mem, latency;
      wel, busy, started := false, 0, 0;
    }

    method WriteEnable()
      modifies `wel
      ensures wel == (old(wel) || busy == 0)
    {
      if busy == 0 { wel := true; }
    }

    method SectorErase(address: seq<byte>)
      requires mem != []
      modifies this
      ensures var a := FromBE(address) % old(|mem|) / SECTOR_SIZE * SECTOR_SIZE;
        mem == if old(busy == 0 && wel) then Erased(old(mem), a, a + SECTOR_SIZE) else old(mem)
      ensures old(busy == 0 && wel) ==> !wel
      ensures old(busy) > 0 ==> wel == old(wel)
    {
      if busy == 0 && wel {
        var a := FromBE(address) % |mem| / SECTOR_SIZE * SECTOR_SIZE;
        mem := Erased(mem, a, a + SECTOR_SIZE);
        wel := false;
        busy := latency(started);
        started := started + 1;
      }
    }

    method PageProgram(address: seq<byte>, data: seq<bv8>)
      requires |data| == PAGE_SIZE && mem != []
      modifies this
      ensures mem == if old(busy == 0 && wel) then ProgramPage(old(mem), FromBE(address) % old(|mem|), data)
                     else old(mem)
      ensures old(busy == 0 && wel) ==> !wel
    {
      if busy == 0 && wel {
        mem := ProgramPage(mem, FromBE(address) % |mem|, data);
        wel := false;
        busy := latency(started);
        started := started + 1;
      }
    }

    /** The write-in-progress bit. */
    method ReadStatus() returns (wip: bool)
      modifies `busy
      ensures wip == (old(busy) > 0) && busy == if wip then old(busy) - 1 else 0
    {
      wip := busy > 0;
      if wip { busy := busy - 1; }
    }

    /** What is read while busy is not defined; this chip sends nothing useful. */
    method ReadData(address: seq<byte>, n: nat) returns (data: seq<bv8>)
      requires mem != []
      ensures |data| == n && (busy == 0 ==> data == ReadEffect(mem, FromBE(address), n))
    {
      data := if busy == 0 then ReadEffect(mem, FromBE(address), n) else seq(n, _ => 0);
    }
  }

  // ---- the device commands

  datatype Width = ThreeByte | FourByte

  /** The address that a command sends. */
  function Sent(addr: u32, width: Width): u32 {
    if width.ThreeByte? then addr % THREE_BYTE_LIMIT else addr
  }

  /** The address bytes of a command. */
  function AddressBytes(addr: u32, width: Width): (s: seq<byte>)
    ensures FromBE(s) == Sent(addr, width)
  {
    AddressBytesAre(addr);
    match width
    case ThreeByte => BE(addr, 4)[1..]
    case FourByte => BE(addr, 4)
  }

  lemma AddressBytesAre(addr: u32)
    ensures FromBE(BE(addr, 4)[1..]) == addr % THREE_BYTE_LIMIT
    ensures FromBE(BE(addr, 4)) == addr
  {
    Pow2Values();
    var high, low := addr / THREE_BYTE_LIMIT, addr % THREE_BYTE_LIMIT;
    BEAppend(high, low, 1, 3);
    assert BE(addr, 4) == BE(high, 1) + BE(low, 3);
    assert BE(addr, 4)[1..] == BE(low, 3);
    FromBEOfBE(low, 3);
    FromBEOfBE(addr, 4);
  }

  predicate SectorAligned(addr: u32) {
    And(addr, Pow2(12) - 1) == 0
  }

  lemma SectorMask(addr: u32)
    ensures SectorAligned(addr) <==> addr % SECTOR_SIZE == 0
  {
    Pow2Values();
    Pow2Add(8, 4);
    AndMask(addr, 12);
  }

  /** A sector start stays one under a modulus of whole sectors. */
  lemma SectorKept(a: nat, m: nat)
    requires a % SECTOR_SIZE == 0 && m % SECTOR_SIZE == 0 && m > 0
    ensures a % m % SECTOR_SIZE == 0
  {
    var s, k, q := a / SECTOR_SIZE, m / SECTOR_SIZE, a / m;
    assert a % m == SECTOR_SIZE * s - SECTOR_SIZE * k * q;
    assert SECTOR_SIZE * s - SECTOR_SIZE * k * q == SECTOR_SIZE * (s - k * q);
    DivModUnique(a % m, SECTOR_SIZE, s - k * q, 0);
  }

  /** Commands to the chip behind a chip select. */
  class SpiNorDevice {
    const chip: NorChip

    constructor (chip: NorChip)
      ensures this.chip == chip
    {
      this.chip := chip;
    }

    predicate Idle()
      reads chip
    {
      chip.busy == 0 && chip.mem != [] && |chip.mem| % SECTOR_SIZE == 0
    }

    /** Erase a sector; a misaligned address is refused after the write enable. */
    method SectorErase(addr: u32) returns (ok: bool)
      requires Idle()
      modifies chip
      ensures Idle() && |chip.mem| == old(|chip.mem|)
      ensures ok <==> addr % SECTOR_SIZE == 0
      ensures ok ==> var low := EraseStart(old(chip.mem), addr);
        chip.mem == Erased(old(chip.mem), low, low + SECTOR_SIZE)
      ensures !ok ==> chip.mem == old(chip.mem) && chip.wel
    {
      chip.WriteEnable();
      SectorMask(addr);
      ok := SectorAligned(addr);
      if ok {
        SectorKept(addr, THREE_BYTE_LIMIT);
        SectorKept(addr % THREE_BYTE_LIMIT, |chip.mem|);
        chip.SectorErase(AddressBytes(addr, ThreeByte));
        WaitUntilReady();
      }
    }

    /** Start a page program; the caller waits. */
    method PageProgram(addr: u32, width: Width, data: seq<bv8>)
      requires Idle() && |data| == PAGE_SIZE
      modifies chip
      ensures chip.mem == ProgramPage(old(chip.mem), Sent(addr, width) % old(|chip.mem|), data)
    {
      chip.WriteEnable();
      chip.PageProgram(AddressBytes(addr, width), data);
    }

    method ReadData(addr: u32, width: Width, n: nat) returns (data: seq<bv8>)
      requires Idle()
      ensures data == ReadEffect(chip.mem, Sent(addr, width), n)
    {
      data := chip.ReadData(AddressBytes(addr, width), n);
    }

    /** Poll the status register until no command is in progress. */
    method WaitUntilReady()
      modifies chip`busy
      ensures chip.busy == 0
    {
      var wip := chip.ReadStatus();
      while wip
        invariant !wip ==> chip.busy == 0
        decreases chip.busy, wip
      {
        wip := chip.ReadStatus();
      }
    }
  }

  // ---- the block device

  datatype BlockError = ProgramError | EraseError | OutOfBounds
  datatype Result = Ok | Err(error: BlockError)

  datatype SpiError = CapacityOutOfRange | UnsupportedDevice(id: nat)
  datatype Geometry = Geometry(capacity: nat, pageSize: nat, sectorSize: nat, supports4ByteAddr: bool)
  datatype GeometryResult = Known(geometry: Geometry) | Unknown(error: SpiError)

  const WORD: nat := 0x1_0000_0000

  /** 1 << code in a 32-bit word: only the low five bits of the shift amount count. */
  function ShiftedOne(code: nat): (n: nat)
    ensures n < WORD
  {
    Pow2Values();
    Pow2Mono(code % 32, 31);
    Pow2(code % 32)
  }

  /** The geometry a JEDEC id stands for.  The capacity is the intended one exactly for codes
    * that a 32-bit shift can take. */
  function FromJedecId(id: (byte, byte, byte)): (r: GeometryResult)
    ensures r.Known? ==>
      && r.geometry.pageSize == PAGE_SIZE && r.geometry.sectorSize == SECTOR_SIZE
      && (r.geometry.supports4ByteAddr <==> r.geometry.capacity > THREE_BYTE_LIMIT)
      && (r.geometry.capacity == Pow2(id.2) <==> id.2 < 32)
      && (id.2 < 32 ==> r.geometry.capacity % SECTOR_SIZE == 0 && r.geometry.capacity <= 0x8000_0000)
    ensures r.Known? <==> 0x10 <= id.2 <= 0x28 && (id.0 == 0xEF || id.0 == 0xC2)
    ensures r.Unknown? ==>
      r.error == if 0x10 <= id.2 <= 0x28 then UnsupportedDevice(id.0) else CapacityOutOfRange
  {
    if !(0x10 <= id.2 <= 0x28) then Unknown(CapacityOutOfRange)
    else if id.0 == MFR_WINBOND || id.0 == MFR_MXIC then
      CapacityIs(id.2);
      var capacity := ShiftedOne(id.2);
      Known(Geometry(capacity, PAGE_SIZE, SECTOR_SIZE, capacity > 16 * 1024 * 1024))
    else Unknown(UnsupportedDevice(id.0))
  }

  lemma CapacityIs(code: nat)
    requires code >= 12
    ensures ShiftedOne(code) == Pow2(code) <==> code < 32
    ensures code < 32 ==> Pow2(code) % SECTOR_SIZE == 0 && Pow2(code) <= 0x8000_0000
  {
    Pow2Values();
    if code < 32 {
      Pow2Mono(code, 31);
      CapacityAligned(code);
    } else {
      Pow2Mono(32, code);
    }
  }

  lemma CapacityAligned(code: nat)
    requires code >= 12
    ensures Pow2(code) % SECTOR_SIZE == 0
  {
    Pow2Values();
    Pow2Add(8, 4);
    Pow2Add(12, code - 12);
    ModMultiple(Pow2(code - 12), SECTOR_SIZE);
  }

  /** A capacity an id can stand for. */
  ghost predicate IsCapacity(n: nat) {
    exists code: nat :: 12 <= code < 32 && n == Pow2(code)
  }

  /** Cutting an address to 32 bits, or to the 24 of a small chip, does not move it. */
  lemma CutKept(a: nat, capacity: nat)
    requires IsCapacity(capacity)
    ensures 0 < capacity <= 0x8000_0000 && capacity % SECTOR_SIZE == 0
    ensures a % WORD % capacity == a % capacity
    ensures capacity <= THREE_BYTE_LIMIT ==> a % THREE_BYTE_LIMIT % capacity == a % capacity
  {
    var code: nat :| 12 <= code < 32 && capacity == Pow2(code);
    CapacityIs(code);
    CutToWord(a, code);
    if capacity <= THREE_BYTE_LIMIT {
      CutToThree(a, code);
    }
  }

  lemma CutToWord(a: nat, code: nat)
    requires code < 32
    ensures a % WORD % Pow2(code) == a % Pow2(code)
  {
    Pow2Values();
    ModMod(a, 32, code);
  }

  lemma CutToThree(a: nat, code: nat)
    requires Pow2(code) <= THREE_BYTE_LIMIT
    ensures a % THREE_BYTE_LIMIT % Pow2(code) == a % Pow2(code)
  {
    SmallCode(code);
    Pow2Values();
    ModMod(a, 24, code);
  }

  lemma SmallCode(code: nat)
    requires Pow2(code) <= THREE_BYTE_LIMIT
    ensures code <= 24
  {
    Pow2Values();
    if code > 24 { Pow2Mono(25, code); }
  }

  lemma SumKept(x: nat, y: nat, i: nat, m: nat)
    requires m > 0 && x % m == y % m
    ensures (x + i) % m == (y + i) % m
  {
    var q := (y + i) / m + x / m - y / m;
    assert m * q == m * ((y + i) / m) + m * (x / m) - m * (y / m);
    DivModUnique(x + i, m, q, (y + i) % m);
  }

  lemma ReadFrom(mem: Memory, a: nat, b: nat, n: nat)
    requires mem != [] && a % |mem| == b % |mem|
    ensures ReadEffect(mem, a, n) == ReadEffect(mem, b, n)
  {
    var r, s := ReadEffect(mem, a, n), ReadEffect(mem, b, n);
    forall i: nat | i < n
      ensures r[i] == s[i]
    {
      SumKept(a, b, i, |mem|);
    }
  }

  lemma EraseFrom(mem: Memory, a: nat)
    requires mem != []
    ensures EraseStart(mem, a % WORD) == EraseStart(mem, a)
  {
    Pow2Values();
    ModMod(a, 32, 24);
  }

  /** The end lies at most the capacity beyond k times 2^32. */
  predicate PastWrap(end: nat, capacity: u32, k: nat) {
    k >= 1 && k * WORD <= end <= k * WORD + capacity
  }

  /** The bounds checks compute the end in 32 bits.  An end out of bounds is accepted exactly if
    * it lies at most the capacity beyond a multiple of 2^32. */
  lemma BoundsExact(end: nat, capacity: u32)
    ensures end % WORD <= capacity && end > capacity <==> exists k: nat :: PastWrap(end, capacity, k)
  {
    if k: nat :| PastWrap(end, capacity, k) {
      DivModUnique(end, WORD, k, end - k * WORD);
    }
    if end % WORD <= capacity && end > capacity {
      if end < WORD {
        InRange(end, WORD);
      }
      assert PastWrap(end, capacity, end / WORD);
    }
  }

  /** The end of a range to read or program passes 2^32 once at most. */
  lemma RangeBounds(addr: u32, n: u32, capacity: u32)
    ensures (addr + n) % WORD <= capacity && addr + n > capacity <==> WORD <= addr + n <= WORD + capacity
  {
    var end: nat := addr + n;
    BoundsExact(end, capacity);
    assert WORD <= end <= WORD + capacity ==> PastWrap(end, capacity, 1);
  }

  /** The end of an erase may pass it many times: up to 4096 of them. */
  lemma EraseBounds(start: u32, count: u32, capacity: u32)
    ensures
      var end := start + SECTOR_SIZE * count;
      && (end % WORD <= capacity && end > capacity <==> exists k: nat :: PastWrap(end, capacity, k))
      && forall k: nat :: PastWrap(end, capacity, k) ==> k <= SECTOR_SIZE
  {
    BoundsExact(start + SECTOR_SIZE * count, capacity);
  }

  /** Such an erase reaches the chip: one sector at 0xFFFF_F000 is accepted for every capacity
    * and erases the last sector of the chip, or of its first 16 MiB. */
  lemma WrappedErase(mem: Memory, capacity: nat)
    requires IsCapacity(capacity) && |mem| == capacity
    ensures (0xFFFF_F000 + SECTOR_SIZE * 1) % WORD <= capacity
    ensures var end := Min(capacity, THREE_BYTE_LIMIT);
      end >= SECTOR_SIZE && EraseEffect(mem, 0xFFFF_F000, 1) == Erased(mem, end - SECTOR_SIZE, end)
  {
    CutKept(0, capacity);
    var low: nat := THREE_BYTE_LIMIT - SECTOR_SIZE;
    assert 0xFFFF_F000 % THREE_BYTE_LIMIT == low;
    if capacity > THREE_BYTE_LIMIT {
      InRange(low, capacity);
    } else {
      LastSector(capacity);
    }
    var start := EraseStart(mem, 0xFFFF_F000);
    var erased := Erased(mem, start, start + SECTOR_SIZE);
    assert EraseEffect(mem, 0xFFFF_F000, 1) == EraseEffect(erased, 0xFFFF_F000 + SECTOR_SIZE, 0);
  }

  /** What is erased stays erased. */
  lemma {:induction false} BlankStays(mem: Memory, a: nat, count: nat, p: nat)
    requires p < |mem| && mem[p] == 0xFF
    ensures EraseEffect(mem, a, count)[p] == 0xFF
    decreases count
  {
    if count > 0 {
      var low := EraseStart(mem, a);
      BlankStays(Erased(mem, low, low + SECTOR_SIZE), a + SECTOR_SIZE, count - 1, p);
    }
  }

  /** The i-th erased sector is blank in the end. */
  lemma {:induction false} SectorBlank(mem: Memory, a: nat, count: nat, i: nat, p: nat)
    requires p < |mem| && i < count
    requires EraseStart(mem, a + SECTOR_SIZE * i) <= p < EraseStart(mem, a + SECTOR_SIZE * i) + SECTOR_SIZE
    ensures EraseEffect(mem, a, count)[p] == 0xFF
    decreases count
  {
    var low := EraseStart(mem, a);
    var first := Erased(mem, low, low + SECTOR_SIZE);
    if i == 0 {
      BlankStays(first, a + SECTOR_SIZE, count - 1, p);
    } else {
      assert a + SECTOR_SIZE + SECTOR_SIZE * (i - 1) == a + SECTOR_SIZE * i;
      SectorBlank(first, a + SECTOR_SIZE, count - 1, i - 1, p);
    }
  }

  /** Some sector among 4096 in a row has the low address that is wanted. */
  lemma SectorReached(a: nat, s: nat) returns (i: nat)
    requires a % SECTOR_SIZE == 0 && s < 4096
    ensures i < 4096 && (a + SECTOR_SIZE * i) % THREE_BYTE_LIMIT == SECTOR_SIZE * s
  {
    var n := a / SECTOR_SIZE;
    i := (s - n) % 4096;
    var q := (n + i - s) / 4096;
    assert n + i == s + 4096 * q;
    DivModUnique(a + SECTOR_SIZE * i, THREE_BYTE_LIMIT, q, SECTOR_SIZE * s);
  }

  /** An erase of 4096 sectors or more erases all that erase commands reach. */
  lemma EraseAll(mem: Memory, a: nat, count: nat)
    requires mem != [] && a % SECTOR_SIZE == 0 && count >= 4096
    ensures EraseEffect(mem, a, count) == Erased(mem, 0, Min(|mem|, THREE_BYTE_LIMIT))
  {
    forall p: nat | p < |mem|
      ensures EraseEffect(mem, a, count)[p] == Erased(mem, 0, Min(|mem|, THREE_BYTE_LIMIT))[p]
    {
      if p < THREE_BYTE_LIMIT {
        var i := SectorReached(a, p / SECTOR_SIZE);
        InRange(SECTOR_SIZE * (p / SECTOR_SIZE), |mem|);
        SectorBlank(mem, a, count, i, p);
      } else {
        EraseStaysLow(mem, a, count, p);
      }
    }
  }

  /** A count of -1 sectors from 4096 on: the end is 2^44, which counts as 0. Every device accepts
    * it and erases its first 16 MiB. */
  lemma CountUnderflow(mem: Memory)
    requires mem != []
    ensures (4096 + SECTOR_SIZE * 0xFFFF_FFFF) % WORD == 0
    ensures EraseEffect(mem, 4096, 0xFFFF_FFFF) == Erased(mem, 0, Min(|mem|, THREE_BYTE_LIMIT))
  {
    DivModUnique(4096 + SECTOR_SIZE * 0xFFFF_FFFF, WORD, 4096, 0);
    EraseAll(mem, 4096, 0xFFFF_FFFF);
  }

  lemma LastSector(capacity: nat)
    requires IsCapacity(capacity) && capacity <= THREE_BYTE_LIMIT
    ensures capacity >= SECTOR_SIZE
    ensures (THREE_BYTE_LIMIT - SECTOR_SIZE) % capacity == capacity - SECTOR_SIZE
  {
    CutKept(THREE_BYTE_LIMIT, capacity);
    var k := THREE_BYTE_LIMIT / capacity;
    assert 0 % capacity == 0 by { InRange(0, capacity); }
    assert THREE_BYTE_LIMIT == capacity * k;
    assert capacity * (k - 1) == capacity * k - capacity;
    DivModUnique(THREE_BYTE_LIMIT - SECTOR_SIZE, capacity, k - 1, capacity - SECTOR_SIZE);
  }

  class NorFlashBlockDevice {
    const device: SpiNorDevice
    const geometry: Geometry

    /** The chip is as large as its id says, and it is idle. */
    ghost predicate Valid()
      reads device.chip
    {
      && geometry.pageSize == PAGE_SIZE && geometry.sectorSize == SECTOR_SIZE
      && IsCapacity(geometry.capacity)
      && (geometry.supports4ByteAddr <==> geometry.capacity > THREE_BYTE_LIMIT)
      && |device.chip.mem| == geometry.capacity && device.Idle()
    }

    constructor (device: SpiNorDevice, id: (byte, byte, byte))
      requires FromJedecId(id).Known? && id.2 < 32
      requires |device.chip.mem| == FromJedecId(id).geometry.capacity && device.chip.busy == 0
      ensures Valid() && this.device == device
    {
      this.device := device;
      geometry := FromJedecId(id).geometry;
      new;
      CapacityIs(id.2);
      assert IsCapacity(geometry.capacity);
      CutKept(0, geometry.capacity);
    }

    function AddressWidth(): Width {
      if geometry.supports4ByteAddr then FourByte else ThreeByte
    }

    /** What is sent of an address is the address, for the chip. */
    lemma SentKept(a: nat)
      requires Valid()
      ensures Sent(a % WORD, AddressWidth()) % geometry.capacity == a % geometry.capacity
    {
      CutKept(a, geometry.capacity);
      CutKept(a % WORD, geometry.capacity);
    }

    /** Read n bytes. */
    method Read(addr: u32, n: u32) returns (r: Result, data: seq<bv8>)
      requires Valid()
      ensures r == if (addr + n) % WORD > geometry.capacity then Err(OutOfBounds) else Ok
      ensures r.Ok? ==> data == ReadEffect(device.chip.mem, addr, n)
      ensures r.Ok? && addr + n < WORD ==> data == device.chip.mem[addr..addr + n]
    {
      var end := (addr + n) % WORD;
      if end > geometry.capacity {
        return Err(OutOfBounds), [];
      }
      SentKept(addr);
      InRange(addr, WORD);
      ReadFrom(device.chip.mem, Sent(addr, AddressWidth()), addr, n);
      data := device.ReadData(addr, AddressWidth(), n);
      if addr + n < WORD {
        InRange(addr + n, WORD);
        ReadIsSlice(device.chip.mem, addr, n);
      }
      r := Ok;
    }

    /** Erase count sectors from start on. */
    method Erase(start: u32, count: u32) returns (r: Result)
      requires Valid()
      modifies device.chip
      ensures Valid()
      ensures r == if (start + SECTOR_SIZE * count) % WORD > geometry.capacity then Err(OutOfBounds)
                   else if count > 0 && start % SECTOR_SIZE != 0 then Err(EraseError)
                   else Ok
      ensures r.Ok? ==> device.chip.mem == EraseEffect(old(device.chip.mem), start, count)
      ensures r.Err? ==> device.chip.mem == old(device.chip.mem)
    {
      var end := (start + geometry.sectorSize * count % WORD) % WORD;
      EraseEnd(start, count);
      if end > geometry.capacity {
        return Err(OutOfBounds);
      }
      r := EraseSectors(start, count);
    }

    lemma EraseEnd(start: u32, count: u32)
      ensures (start + SECTOR_SIZE * count % WORD) % WORD == (start + SECTOR_SIZE * count) % WORD
    {
    }

    method EraseSectors(start: u32, count: u32) returns (r: Result)
      requires Valid()
      modifies device.chip
      ensures Valid()
      ensures r == if count > 0 && start % SECTOR_SIZE != 0 then Err(EraseError) else Ok
      ensures r.Ok? ==> device.chip.mem == EraseEffect(old(device.chip.mem), start, count)
      ensures r.Err? ==> device.chip.mem == old(device.chip.mem)
    {
      var addr: u32 := start;
      for i := 0 to count
        invariant Valid() && addr == (start + SECTOR_SIZE * i) % WORD
        invariant i > 0 ==> start % SECTOR_SIZE == 0
        invariant device.chip.mem == EraseEffect(old(device.chip.mem), start, i)
      {
        NextSector(start, i);
        EraseFrom(device.chip.mem, start + SECTOR_SIZE * i);
        var ok := device.SectorErase(addr);
        if !ok {
          return Err(EraseError);
        }
        EraseEffectSnoc(old(device.chip.mem), start, i);
        addr := (addr + geometry.sectorSize) % WORD;
      }
      r := Ok;
    }

    lemma NextSector(start: u32, i: nat)
      ensures ((start + SECTOR_SIZE * i) % WORD + SECTOR_SIZE) % WORD == (start + SECTOR_SIZE * (i + 1)) % WORD
      ensures (start + SECTOR_SIZE * i) % WORD % SECTOR_SIZE == start % SECTOR_SIZE
    {
    }

    /** Program one page-sized chunk and wait. */
    method ProgramChunk(addr: nat, chunk: seq<bv8>)
      requires Valid() && |chunk| == PAGE_SIZE
      modifies device.chip
      ensures Valid()
      ensures device.chip.mem == ProgramPage(old(device.chip.mem), addr % geometry.capacity, chunk)
    {
      SentKept(addr);
      device.PageProgram(addr % WORD, AddressWidth(), chunk);
      device.WaitUntilReady();
    }

    /** Program data from addr on, a page at a time. */
    method Program(addr: u32, data: seq<bv8>) returns (r: Result)
      requires Valid() && |data| < WORD
      modifies device.chip
      ensures Valid()
      ensures r == if (addr + |data|) % WORD > geometry.capacity then Err(OutOfBounds)
                   else if |data| % PAGE_SIZE != 0 then Err(ProgramError)
                   else Ok
      ensures r.Ok? ==> device.chip.mem == ProgramEffect(old(device.chip.mem), addr, data)
      ensures r.Err? ==> device.chip.mem == old(device.chip.mem)
    {
      var end := (addr + |data|) % WORD;
      if end > geometry.capacity {
        return Err(OutOfBounds);
      }
      if |data| % geometry.pageSize != 0 {
        return Err(ProgramError);
      }
      ProgramPages(addr, data);
      r := Ok;
    }

    method ProgramPages(addr: u32, data: seq<bv8>)
      requires Valid() && |data| % PAGE_SIZE == 0
      modifies device.chip
      ensures Valid() && device.chip.mem == ProgramEffect(old(device.chip.mem), addr, data)
    {
      var offset := 0;
      while offset < |data|
        invariant Valid() && offset <= |data| && offset % PAGE_SIZE == 0
        invariant device.chip.mem == ProgramEffect(old(device.chip.mem), addr, data[..offset])
      {
        PageFits(offset, |data|);
        NextPage(offset);
        ProgramChunk(addr + offset, data[offset..offset + geometry.pageSize]);
        ProgramNext(old(device.chip.mem), addr, data, offset);
        offset := offset + geometry.pageSize;
      }
      assert data[..offset] == data;
    }
  }
}
