/** The I3C device table, its position index and the address book
  * (src/i3c/config.rs, src/i3c/controller.rs). */
module I3cDevices {
  import opened Bytes

  const MAX_DEVICES: nat := 8
  const ADDRESSES: nat := 128
  const I3C_BROADCAST_ADDR: nat := 0x7E
  const POOL_START: nat := 8
  const POOL_END: nat := 0x7F

  datatype DeviceEntry = DeviceEntry(
    pid: Option<nat>,
    dynAddr: nat,
    desiredDa: nat,
    pos: Option<nat>)

  datatype I3cError = InvalidArgs | NoFreeSlot | AddrInUse | DevNotFound

  datatype Result = Ok | Err(error: I3cError)

  // ---- lookups

  /** First index from k on whose device has address da. */
  function FindAddr(devices: seq<DeviceEntry>, da: nat, k: nat := 0): (r: Option<nat>)
    requires k <= |devices|
    ensures r.Some? ==> k <= r.value < |devices| && devices[r.value].dynAddr == da
    ensures r.None? ==> forall i | k <= i < |devices| :: devices[i].dynAddr != da
    decreases |devices| - k
  {
    if k == |devices| then None
    else if devices[k].dynAddr == da then Some(k)
    else FindAddr(devices, da, k + 1)
  }

  function FindPid(devices: seq<DeviceEntry>, pid: nat, k: nat := 0): (r: Option<nat>)
    requires k <= |devices|
    ensures r.Some? ==> k <= r.value < |devices| && devices[r.value].pid == Some(pid)
    ensures r.None? ==> forall i | k <= i < |devices| :: devices[i].pid != Some(pid)
    decreases |devices| - k
  {
    if k == |devices| then None
    else if devices[k].pid == Some(pid) then Some(k)
    else FindPid(devices, pid, k + 1)
  }

  /** First position from p on that maps to device idx. */
  function PosOf(byPos: seq<Option<nat>>, idx: nat, p: nat := 0): (r: Option<nat>)
    requires p <= |byPos|
    ensures r.Some? ==> p <= r.value < |byPos| && byPos[r.value] == Some(idx)
    ensures r.None? ==> forall q | p <= q < |byPos| :: byPos[q] != Some(idx)
    decreases |byPos| - p
  {
    if p == |byPos| then None
    else if byPos[p] == Some(idx) then Some(p)
    else PosOf(byPos, idx, p + 1)
  }

  function PosOfAddr(devices: seq<DeviceEntry>, byPos: seq<Option<nat>>, da: nat): Option<nat> {
    match FindAddr(devices, da)
    case None => None
    case Some(i) => PosOf(byPos, i)
  }

  function PosOfPid(devices: seq<DeviceEntry>, byPos: seq<Option<nat>>, pid: nat): Option<nat> {
    match FindPid(devices, pid)
    case None => None
    case Some(i) => PosOf(byPos, i)
  }

  // ---- consistency

  /** Positions and devices point at each other. */
  ghost predicate Linked(devices: seq<DeviceEntry>, byPos: seq<Option<nat>>) {
    && |byPos| == MAX_DEVICES
    && (forall p | 0 <= p < MAX_DEVICES && byPos[p].Some? ::
          byPos[p].value < |devices| && devices[byPos[p].value].pos == Some(p))
    && (forall i | 0 <= i < |devices| && devices[i].pos.Some? ::
          devices[i].pos.value < MAX_DEVICES && byPos[devices[i].pos.value] == Some(i))
  }

  /** No two devices share an address or a provisional ID. */
  ghost predicate Distinct(devices: seq<DeviceEntry>) {
    forall i, j | 0 <= i < j < |devices| ::
      && devices[i].dynAddr != devices[j].dynAddr
      && (devices[i].pid.Some? ==> devices[i].pid != devices[j].pid)
  }

  ghost predicate HasAddr(devices: seq<DeviceEntry>, a: nat) {
    exists i :: 0 <= i < |devices| && devices[i].dynAddr == a
  }

  ghost predicate HasPid(devices: seq<DeviceEntry>, pid: nat) {
    exists i :: 0 <= i < |devices| && devices[i].pid == Some(pid)
  }

  /** The address book marks exactly the addresses of the devices. */
  ghost predicate BookMatches(devices: seq<DeviceEntry>, inUse: seq<bool>) {
    && |inUse| == ADDRESSES
    && (forall i | 0 <= i < |devices| :: 0 < devices[i].dynAddr < ADDRESSES)
    && (forall a | 0 <= a < ADDRESSES :: inUse[a] <==> HasAddr(devices, a))
  }

  /** In a linked table the index search gives back the position the device remembers. */
  lemma PosOfIsPos(devices: seq<DeviceEntry>, byPos: seq<Option<nat>>, i: nat)
    requires Linked(devices, byPos) && i < |devices|
    ensures PosOf(byPos, i) == devices[i].pos
  {
  }

  // ---- removing a device

  function WithoutDevice(devices: seq<DeviceEntry>, k: nat): seq<DeviceEntry>
    requires k < |devices|
  {
    devices[..k] + devices[k + 1..]
  }

  /** Where device i has gone once device k is out. */
  function Shifted(i: nat, k: nat): nat {
    if i > k then i - 1 else i
  }

  /** An index entry once device k is out. */
  function ShiftedEntry(e: Option<nat>, k: nat): Option<nat> {
    if e.Some? && e.value != k then Some(Shifted(e.value, k)) else None
  }

  /** The index with the entry at a position cleared. */
  function Cleared(byPos: seq<Option<nat>>, pos: Option<nat>): (r: seq<Option<nat>>)
    ensures |r| == |byPos|
  {
    if pos.Some? && pos.value < |byPos| then byPos[pos.value := None] else byPos
  }

  /** Entries above k count one less. */
  function MovedDown(e: Option<nat>, k: nat): Option<nat> {
    if e.Some? && e.value > k then Some(e.value - 1) else e
  }

  function AllMovedDown(byPos: seq<Option<nat>>, k: nat): (r: seq<Option<nat>>)
    ensures |r| == |byPos|
  {
    seq(|byPos|, p requires 0 <= p < |byPos| => MovedDown(byPos[p], k))
  }

  function WithoutIndex(byPos: seq<Option<nat>>, k: nat): (r: seq<Option<nat>>)
    ensures |r| == |byPos|
  {
    seq(|byPos|, p requires 0 <= p < |byPos| => ShiftedEntry(byPos[p], k))
  }

  /** Clearing the one position device k remembers takes k out of the index exactly when every
    * entry for k is there and the entry there is for k. */
  lemma ClearingExact(byPos: seq<Option<nat>>, pos: Option<nat>, k: nat)
    ensures AllMovedDown(Cleared(byPos, pos), k) == WithoutIndex(byPos, k)
      <==> forall p: nat | p < |byPos| ::
             (byPos[p] == Some(k) ==> pos == Some(p)) && (pos == Some(p) ==> byPos[p] in {None, Some(k)})
  {
    var l, r := AllMovedDown(Cleared(byPos, pos), k), WithoutIndex(byPos, k);
    forall p: nat | p < |byPos|
      ensures l[p] == r[p]
        <==> (byPos[p] == Some(k) ==> pos == Some(p)) && (pos == Some(p) ==> byPos[p] in {None, Some(k)})
    {
    }
    assert l == r <==> forall p: nat | p < |byPos| :: l[p] == r[p];
  }

  /** In a linked table it does. */
  lemma LinkedClears(devices: seq<DeviceEntry>, byPos: seq<Option<nat>>, k: nat)
    requires Linked(devices, byPos) && k < |devices|
    ensures AllMovedDown(Cleared(byPos, devices[k].pos), k) == WithoutIndex(byPos, k)
  {
    ClearingExact(byPos, devices[k].pos, k);
  }

  lemma WithoutDeviceAt(devices: seq<DeviceEntry>, k: nat, i: nat)
    requires k < |devices| && i < |devices| && i != k
    ensures Shifted(i, k) < |WithoutDevice(devices, k)| && WithoutDevice(devices, k)[Shifted(i, k)] == devices[i]
  {
  }

  /** Removing a device and shifting the index keeps positions and devices linked. */
  lemma DetachKeepsLinked(devices: seq<DeviceEntry>, byPos: seq<Option<nat>>, k: nat)
    requires Linked(devices, byPos) && k < |devices|
    ensures Linked(WithoutDevice(devices, k), WithoutIndex(byPos, k))
  {
    var ds, bp := WithoutDevice(devices, k), WithoutIndex(byPos, k);
    forall p | 0 <= p < MAX_DEVICES && bp[p].Some?
      ensures bp[p].value < |ds| && ds[bp[p].value].pos == Some(p)
    {
      WithoutDeviceAt(devices, k, byPos[p].value);
    }
    forall i | 0 <= i < |ds| && ds[i].pos.Some?
      ensures ds[i].pos.value < MAX_DEVICES && bp[ds[i].pos.value] == Some(i)
    {
      var o := if i < k then i else i + 1;
      assert ds[i] == devices[o];
    }
  }

  lemma DetachKeepsDistinct(devices: seq<DeviceEntry>, k: nat)
    requires Distinct(devices) && k < |devices|
    ensures Distinct(WithoutDevice(devices, k))
  {
    var ds := WithoutDevice(devices, k);
    forall i, j | 0 <= i < j < |ds|
      ensures ds[i].dynAddr != ds[j].dynAddr && (ds[i].pid.Some? ==> ds[i].pid != ds[j].pid)
    {
      var oi, oj := if i < k then i else i + 1, if j < k then j else j + 1;
      assert ds[i] == devices[oi] && ds[j] == devices[oj];
    }
  }

  /** Detaching a device changes no other device's position, by address or by PID, and the
    * detached one is found no more. */
  lemma DetachKeepsLookups(devices: seq<DeviceEntry>, byPos: seq<Option<nat>>, k: nat, j: nat)
    requires Linked(devices, byPos) && Distinct(devices) && k < |devices| && j < |devices|
    ensures
      var ds, bp := WithoutDevice(devices, k), WithoutIndex(byPos, k);
      && PosOfAddr(ds, bp, devices[j].dynAddr)
        == (if j == k then None else PosOfAddr(devices, byPos, devices[j].dynAddr))
      && (devices[j].pid.Some? ==>
            PosOfPid(ds, bp, devices[j].pid.value)
            == if j == k then None else PosOfPid(devices, byPos, devices[j].pid.value))
  {
    var ds, bp := WithoutDevice(devices, k), WithoutIndex(byPos, k);
    DetachKeepsLinked(devices, byPos, k);
    DetachKeepsDistinct(devices, k);
    if j != k {
      var i := Shifted(j, k);
      WithoutDeviceAt(devices, k, j);
      LookupsAre(devices, byPos, j);
      LookupsAre(ds, bp, i);
    } else {
      forall i | 0 <= i < |ds|
        ensures ds[i].dynAddr != devices[k].dynAddr && (devices[k].pid.Some? ==> ds[i].pid != devices[k].pid)
      {
        var o := if i < k then i else i + 1;
        assert ds[i] == devices[o];
      }
    }
  }

  /** With distinct devices, looking a device up finds its own position. */
  lemma LookupsAre(devices: seq<DeviceEntry>, byPos: seq<Option<nat>>, j: nat)
    requires Linked(devices, byPos) && Distinct(devices) && j < |devices|
    ensures PosOfAddr(devices, byPos, devices[j].dynAddr) == devices[j].pos
    ensures devices[j].pid.Some? ==> PosOfPid(devices, byPos, devices[j].pid.value) == devices[j].pos
  {
    PosOfIsPos(devices, byPos, j);
    assert FindAddr(devices, devices[j].dynAddr) == Some(j);
    if devices[j].pid.Some? {
      assert FindPid(devices, devices[j].pid.value) == Some(j);
    }
  }

  lemma DetachKeepsBook(devices: seq<DeviceEntry>, inUse: seq<bool>, k: nat)
    requires BookMatches(devices, inUse) && Distinct(devices) && k < |devices|
    ensures BookMatches(WithoutDevice(devices, k), inUse[devices[k].dynAddr := false])
  {
    var ds, book := WithoutDevice(devices, k), inUse[devices[k].dynAddr := false];
    forall i | 0 <= i < |ds|
      ensures 0 < ds[i].dynAddr < ADDRESSES && ds[i].dynAddr != devices[k].dynAddr
      ensures HasAddr(devices, ds[i].dynAddr)
    {
      var o := if i < k then i else i + 1;
      assert ds[i] == devices[o];
    }
    forall a | 0 <= a < ADDRESSES
      ensures book[a] <==> HasAddr(ds, a)
    {
      assert inUse[a] <==> HasAddr(devices, a);
      if book[a] {
        var i :| 0 <= i < |devices| && devices[i].dynAddr == a;
        WithoutDeviceAt(devices, k, i);
      }
    }
  }

  /** Without the mark taken back, the book has an address too many. */
  lemma DetachBreaksBook(devices: seq<DeviceEntry>, inUse: seq<bool>, k: nat)
    requires BookMatches(devices, inUse) && Distinct(devices) && k < |devices|
    ensures !BookMatches(WithoutDevice(devices, k), inUse)
  {
    var ds, a := WithoutDevice(devices, k), devices[k].dynAddr;
    assert inUse[a] by {
      assert HasAddr(devices, a);
    }
    forall i | 0 <= i < |ds|
      ensures ds[i].dynAddr != a
    {
      var o := if i < k then i else i + 1;
      assert ds[i] == devices[o];
    }
  }

  // ---- attaching a device

  /** What attaching needs of its caller: a free slot of the index, an address nobody
    * uses and an unknown PID.  The driver checks none of these. */
  ghost predicate Attachable(devices: seq<DeviceEntry>, byPos: seq<Option<nat>>, inUse: seq<bool>,
                             pid: nat, da: nat, slot: nat)
    requires |byPos| == MAX_DEVICES && |inUse| == ADDRESSES && da < ADDRESSES
  {
    slot < MAX_DEVICES && byPos[slot].None? && !inUse[da] && !HasPid(devices, pid)
  }

  function Mapped(byPos: seq<Option<nat>>, slot: nat, idx: nat): seq<Option<nat>> {
    if slot < |byPos| then byPos[slot := Some(idx)] else byPos
  }

  ghost predicate Consistent(devices: seq<DeviceEntry>, byPos: seq<Option<nat>>, inUse: seq<bool>) {
    Linked(devices, byPos) && Distinct(devices) && BookMatches(devices, inUse) && |devices| <= MAX_DEVICES
  }

  /** Appending a device keeps everything consistent exactly when it was attachable. */
  lemma AttachExact(devices: seq<DeviceEntry>, byPos: seq<Option<nat>>, inUse: seq<bool>, pid: nat, da: nat, slot: nat)
    requires Consistent(devices, byPos, inUse) && |devices| < MAX_DEVICES && 0 < da < ADDRESSES
    ensures
      var ds := devices + [DeviceEntry(Some(pid), da, da, Some(slot))];
      Consistent(ds, Mapped(byPos, slot, |devices|), inUse[da := true])
      <==> Attachable(devices, byPos, inUse, pid, da, slot)
  {
    if Attachable(devices, byPos, inUse, pid, da, slot) {
      AttachKeepsConsistent(devices, byPos, inUse, pid, da, slot);
    } else {
      AttachBreaks(devices, byPos, inUse, pid, da, slot);
    }
  }

  lemma AttachKeepsConsistent(devices: seq<DeviceEntry>, byPos: seq<Option<nat>>, inUse: seq<bool>,
                              pid: nat, da: nat, slot: nat)
    requires Consistent(devices, byPos, inUse) && |devices| < MAX_DEVICES && 0 < da < ADDRESSES
    requires Attachable(devices, byPos, inUse, pid, da, slot)
    ensures Consistent(devices + [DeviceEntry(Some(pid), da, da, Some(slot))],
                       Mapped(byPos, slot, |devices|), inUse[da := true])
  {
    var dev := DeviceEntry(Some(pid), da, da, Some(slot));
    AttachKeepsLinked(devices, byPos, dev, slot);
    AttachKeepsDistinct(devices, inUse, dev, pid);
    AttachKeepsBook(devices, inUse, dev);
  }

  lemma AttachKeepsLinked(devices: seq<DeviceEntry>, byPos: seq<Option<nat>>, dev: DeviceEntry, slot: nat)
    requires Linked(devices, byPos) && slot < MAX_DEVICES && byPos[slot].None? && dev.pos == Some(slot)
    ensures Linked(devices + [dev], Mapped(byPos, slot, |devices|))
  {
  }

  lemma AttachKeepsDistinct(devices: seq<DeviceEntry>, inUse: seq<bool>, dev: DeviceEntry, pid: nat)
    requires Distinct(devices) && BookMatches(devices, inUse) && dev.dynAddr < ADDRESSES
    requires !inUse[dev.dynAddr] && dev.pid == Some(pid) && !HasPid(devices, pid)
    ensures Distinct(devices + [dev])
  {
    assert !HasAddr(devices, dev.dynAddr);
  }

  lemma AttachKeepsBook(devices: seq<DeviceEntry>, inUse: seq<bool>, dev: DeviceEntry)
    requires BookMatches(devices, inUse) && 0 < dev.dynAddr < ADDRESSES
    ensures BookMatches(devices + [dev], inUse[dev.dynAddr := true])
  {
    var ds, n := devices + [dev], |devices|;
    forall a | 0 <= a < ADDRESSES
      ensures inUse[dev.dynAddr := true][a] <==> HasAddr(ds, a)
    {
      if a == dev.dynAddr {
        assert ds[n].dynAddr == a;
      } else if HasAddr(devices, a) {
        var i :| 0 <= i < n && devices[i].dynAddr == a;
        assert ds[i].dynAddr == a;
      }
    }
  }

  lemma AttachBreaks(devices: seq<DeviceEntry>, byPos: seq<Option<nat>>, inUse: seq<bool>, pid: nat, da: nat, slot: nat)
    requires Consistent(devices, byPos, inUse) && |devices| < MAX_DEVICES && 0 < da < ADDRESSES
    requires !Attachable(devices, byPos, inUse, pid, da, slot)
    ensures !Consistent(devices + [DeviceEntry(Some(pid), da, da, Some(slot))],
                        Mapped(byPos, slot, |devices|), inUse[da := true])
  {
    var ds, n := devices + [DeviceEntry(Some(pid), da, da, Some(slot))], |devices|;
    assert ds[n].pos == Some(slot);
    if slot < MAX_DEVICES && byPos[slot].Some? {
      var i := byPos[slot].value;
      assert ds[i].pos == Some(slot);
    } else if inUse[da] {
      assert HasAddr(devices, da);
      var i :| 0 <= i < n && devices[i].dynAddr == da;
      assert ds[i].dynAddr == ds[n].dynAddr;
    } else if HasPid(devices, pid) {
      var i :| 0 <= i < n && devices[i].pid == Some(pid);
      assert ds[i].pid == ds[n].pid;
    }
  }

  // ---- reassigning an address

  /** Moving device k to a free address keeps everything consistent. */
  lemma ReassignKeepsConsistent(devices: seq<DeviceEntry>, byPos: seq<Option<nat>>, inUse: seq<bool>, k: nat, to: nat)
    requires Consistent(devices, byPos, inUse) && k < |devices|
    requires 0 < to < ADDRESSES && !inUse[to]
    ensures Consistent(devices[k := devices[k].(dynAddr := to)], byPos,
                       inUse[devices[k].dynAddr := false][to := true])
  {
    var from := devices[k].dynAddr;
    var ds := devices[k := devices[k].(dynAddr := to)];
    var book := inUse[from := false][to := true];
    assert !HasAddr(devices, to);
    forall a | 0 <= a < ADDRESSES
      ensures book[a] <==> HasAddr(ds, a)
    {
      assert inUse[a] <==> HasAddr(devices, a);
      if a == to {
        assert ds[k].dynAddr == a;
      } else if a != from && HasAddr(devices, a) {
        var i :| 0 <= i < |devices| && devices[i].dynAddr == a;
        assert ds[i].dynAddr == a;
      }
    }
  }

  // ---- the driver's structures

  class AddrBook {
    const inUse: array<bool>
    const reserved: array<bool>

    constructor ()
      ensures inUse.Length == reserved.Length == ADDRESSES && inUse != reserved
      ensures fresh(inUse) && fresh(reserved)
      ensures forall a | 0 <= a < ADDRESSES :: !inUse[a] && !reserved[a]
    {
      inUse := new bool[ADDRESSES](_ => false);
      reserved := new bool[ADDRESSES](_ => false);
    }

    predicate IsFree(addr: nat)
      requires addr < inUse.Length == reserved.Length
      reads inUse, reserved
    {
      !inUse[addr] && !reserved[addr]
    }

    predicate Shape() {
      inUse.Length == reserved.Length == ADDRESSES && inUse != reserved
    }

    /** The least free address of the pool from start on. */
    method AllocFrom(start: nat) returns (r: Option<nat>)
      requires Shape()
      ensures r.None? <==> forall a: nat | Max(start, 8) <= a < 0x7F :: inUse[a] || reserved[a]
      ensures r.Some? ==>
        && Max(start, 8) <= r.value < 0x7F && !inUse[r.value] && !reserved[r.value]
        && forall a: nat | Max(start, 8) <= a < r.value :: inUse[a] || reserved[a]
    {
      var addr: nat := Max(start, POOL_START);
      while addr < POOL_END
        invariant Max(start, POOL_START) <= addr
        invariant forall a: nat | Max(start, POOL_START) <= a < addr && a < POOL_END :: inUse[a] || reserved[a]
      {
        if IsFree(addr) {
          return Some(addr);
        }
        addr := addr + 1;
      }
      r := None;
    }

    /** Neither the desired nor the static address can be had. */
    predicate FromPool(staticAddr: nat, desired: nat)
      requires Shape() && staticAddr < ADDRESSES && desired < ADDRESSES
      reads inUse, reserved
    {
      (desired == 0 || !IsFree(desired)) && (staticAddr == 0 || !IsFree(staticAddr))
    }

    /** Pick the desired address, else the static one, else one from the pool.  The address is
      * marked, and so not picked again, exactly when it is not from the pool. */
    method PickInitialDa(staticAddr: nat, desired: nat) returns (r: Option<nat>)
      requires Shape() && staticAddr < ADDRESSES && desired < ADDRESSES
      modifies inUse
      ensures r.Some? ==> 0 < r.value < ADDRESSES && old(!inUse[r.value] && !reserved[r.value])
      ensures r.Some? ==> (!IsFree(r.value) <==> !old(FromPool(staticAddr, desired)))
      ensures desired != 0 && old(IsFree(desired)) ==> r == Some(desired)
      ensures old((desired == 0 || !IsFree(desired)) && staticAddr != 0 && IsFree(staticAddr)) ==>
        r == Some(staticAddr)
      ensures old(FromPool(staticAddr, desired)) ==>
        inUse[..] == old(inUse[..])
        && (r.None? <==> forall a: nat | POOL_START <= a < POOL_END :: !IsFree(a))
      ensures !old(FromPool(staticAddr, desired)) ==> r.Some? && inUse[..] == old(inUse[..])[r.value := true]
    {
      if desired != 0 && IsFree(desired) {
        MarkUse(desired, true);
        return Some(desired);
      }
      if staticAddr != 0 && IsFree(staticAddr) {
        MarkUse(staticAddr, true);
        return Some(staticAddr);
      }
      r := AllocFrom(POOL_START);
    }

    /** Address 0 stands for "none" and is never marked. */
    method MarkUse(addr: nat, used: bool)
      requires addr < inUse.Length
      modifies inUse
      ensures inUse[..] == old(if addr == 0 then inUse[..] else inUse[..][addr := used])
    {
      if addr != 0 {
        inUse[addr] := used;
      }
    }
  }

  class Attached {
    var devices: seq<DeviceEntry>
    const byPos: array<Option<nat>>

    constructor ()
      ensures devices == [] && byPos.Length == MAX_DEVICES && fresh(byPos)
      ensures forall p | 0 <= p < MAX_DEVICES :: byPos[p].None?
    {
      devices := [];
      byPos := new Option<nat>[MAX_DEVICES](_ => None);
    }

    method Attach(dev: DeviceEntry) returns (r: Option<nat>)
      modifies `devices
      ensures old(|devices|) >= 8 ==> r.None? && devices == old(devices)
      ensures old(|devices|) < 8 ==> r == Some(old(|devices|)) && devices == old(devices) + [dev]
    {
      if |devices| >= MAX_DEVICES {
        return None;
      }
      r := Some(|devices|);
      devices := devices + [dev];
    }

    method MapPos(pos: nat, idx: nat) returns (ok: bool)
      modifies byPos
      ensures ok == (pos < byPos.Length)
      ensures byPos[..] == Mapped(old(byPos[..]), pos, idx)
    {
      ok := pos < byPos.Length;
      if ok {
        byPos[pos] := Some(idx);
      }
    }

    /** Remove a device, clear the position it remembers and move the entries behind it down. */
    method Detach(k: nat)
      modifies `devices, byPos
      ensures old(k >= |devices|) ==> devices == old(devices) && byPos[..] == old(byPos[..])
      ensures old(k < |devices|) ==>
        && devices == WithoutDevice(old(devices), k)
        && byPos[..] == AllMovedDown(Cleared(old(byPos[..]), old(devices[k].pos)), k)
    {
      if k >= |devices| {
        return;
      }
      if devices[k].pos.Some? {
        var pos := devices[k].pos.value;
        if pos < byPos.Length {
          byPos[pos] := None;
        }
      }
      devices := devices[..k] + devices[k + 1..];
      MoveDown(k);
    }

    /** The device index at a position. */
    function At(pos: nat): Option<nat>
      reads byPos
    {
      if pos < byPos.Length then byPos[pos] else None
    }

    method MoveDown(k: nat)
      modifies byPos
      ensures byPos[..] == AllMovedDown(old(byPos[..]), k)
    {
      for p := 0 to byPos.Length
        invariant forall q | 0 <= q < p :: byPos[q] == MovedDown(old(byPos[q]), k)
        invariant forall q | p <= q < byPos.Length :: byPos[q] == old(byPos[q])
      {
        if byPos[p].Some? {
          var idx := byPos[p].value;
          if idx > k && idx > 0 {
            byPos[p] := Some(idx - 1);
          }
        }
      }
    }
  }

  class I3cController {
    const addrbook: AddrBook
    const attached: Attached

    ghost predicate Shape()
      reads this, addrbook, attached
    {
      && addrbook.inUse.Length == addrbook.reserved.Length == ADDRESSES
      && addrbook.inUse != addrbook.reserved
      && attached.byPos.Length == MAX_DEVICES
    }

    /** Device table, index and address book agree, and address 0 is reserved. */
    ghost predicate Valid()
      reads this, addrbook, addrbook.inUse, addrbook.reserved, attached, attached.byPos
    {
      && Shape()
      && addrbook.reserved[0]
      && Consistent(attached.devices, attached.byPos[..], addrbook.inUse[..])
    }

    constructor ()
      ensures Valid() && attached.devices == []
    {
      addrbook := new AddrBook();
      attached := new Attached();
      new;
      addrbook.reserved[0] := true;
    }

    /** Attach a device at an address and a slot of the device address table. */
    method AttachI3cDev(pid: nat, desiredDa: nat, slot: nat) returns (r: Result)
      requires Valid()
      modifies attached, attached.byPos, addrbook.inUse
      ensures r == old(if desiredDa == 0 || desiredDa >= 0x7E then Err(InvalidArgs)
                       else if |attached.devices| >= 8 then Err(AddrInUse) else Ok)
      ensures r.Err? ==> Valid() && attached.devices == old(attached.devices)
      ensures r.Ok? ==>
        attached.devices == old(attached.devices) + [DeviceEntry(Some(pid), desiredDa, desiredDa, Some(slot))]
      ensures r.Ok? ==>
        && attached.byPos[..] == Mapped(old(attached.byPos[..]), slot, old(|attached.devices|))
        && addrbook.inUse[..] == old(addrbook.inUse[..])[desiredDa := true]
      ensures r.Ok? ==>
        (Valid() <==> old(Attachable(attached.devices, attached.byPos[..], addrbook.inUse[..], pid, desiredDa, slot)))
    {
      if desiredDa == 0 || desiredDa >= I3C_BROADCAST_ADDR {
        return Err(InvalidArgs);
      }
      ghost var devices, byPos, inUse := attached.devices, attached.byPos[..], addrbook.inUse[..];
      var dev := DeviceEntry(Some(pid), desiredDa, desiredDa, Some(slot));
      var idx := attached.Attach(dev);
      if idx.None? {
        return Err(AddrInUse);
      }
      var _ := attached.MapPos(slot, idx.value);
      addrbook.MarkUse(desiredDa, true);
      AttachExact(devices, byPos, inUse, pid, desiredDa, slot);
      r := Ok;
    }

    method DetachI3cDevByIdx(k: nat)
      requires Valid() && k < |attached.devices|
      modifies attached, attached.byPos, addrbook.inUse
      ensures Valid()
      ensures attached.devices == WithoutDevice(old(attached.devices), k)
      ensures attached.byPos[..] == WithoutIndex(old(attached.byPos[..]), k)
      ensures addrbook.inUse[..] == old(addrbook.inUse[..][attached.devices[k].dynAddr := false])
    {
      LinkedClears(attached.devices, attached.byPos[..], k);
      DetachKeepsLinked(attached.devices, attached.byPos[..], k);
      DetachKeepsDistinct(attached.devices, k);
      DetachKeepsBook(attached.devices, addrbook.inUse[..], k);
      var dev := attached.devices[k];
      if dev.dynAddr != 0 {
        addrbook.MarkUse(dev.dynAddr, false);
      }
      attached.Detach(k);
    }

    /** Detach the device at a position.  Its address stays marked, so the book no longer
      * matches once there was a device. */
    method DetachI3cDev(pos: nat)
      requires Valid()
      modifies attached, attached.byPos
      ensures Valid() <==> old(attached.At(pos).None?)
      ensures old(attached.At(pos).None?) ==>
        attached.devices == old(attached.devices) && attached.byPos[..] == old(attached.byPos[..])
      ensures old(attached.At(pos).Some?) ==>
        && attached.devices == WithoutDevice(old(attached.devices), old(attached.At(pos).value))
        && attached.byPos[..] == WithoutIndex(old(attached.byPos[..]), old(attached.At(pos).value))
    {
      var found := attached.At(pos);
      if found.Some? {
        LinkedClears(attached.devices, attached.byPos[..], found.value);
        DetachBreaksBook(attached.devices, addrbook.inUse[..], found.value);
        attached.Detach(found.value);
      }
    }

    /** Move the device at address from to a free address.  If no device has that address
      * the call fails, but only after it has marked the new address as used. */
    method ReassignDa(from: nat, to: nat) returns (r: Result)
      requires Valid() && from < ADDRESSES && to < ADDRESSES
      modifies attached, addrbook.inUse
      ensures r == old(if from == to then Ok else if !addrbook.IsFree(to) then Err(AddrInUse)
                       else if FindAddr(attached.devices, from).Some? then Ok else Err(DevNotFound))
      ensures r == Err(AddrInUse) || from == to ==>
        attached.devices == old(attached.devices) && addrbook.inUse[..] == old(addrbook.inUse[..])
      ensures r.Ok? && from != to ==>
        var k := old(FindAddr(attached.devices, from).value);
        attached.devices == old(attached.devices[k := attached.devices[k].(dynAddr := to)])
      ensures r != Err(AddrInUse) && from != to ==>
        addrbook.inUse[..] ==
        old((if from == 0 then addrbook.inUse[..] else addrbook.inUse[..][from := false])[to := true])
      ensures r == Err(DevNotFound) ==> attached.devices == old(attached.devices)
      ensures Valid() <==> r != Err(DevNotFound)
    {
      if from == to {
        return Ok;
      }
      if !addrbook.IsFree(to) {
        return Err(AddrInUse);
      }
      var found := FindAddr(attached.devices, from);
      if found.Some? {
        ReassignKeepsConsistent(attached.devices, attached.byPos[..], addrbook.inUse[..], found.value, to);
      } else {
        assert !HasAddr(attached.devices, to);
      }
      addrbook.MarkUse(from, false);
      addrbook.MarkUse(to, true);
      if found.Some? {
        var i := found.value;
        attached.devices := attached.devices[i := attached.devices[i].(dynAddr := to)];
        r := Ok;
      } else {
        assert addrbook.inUse[..][to];
        r := Err(DevNotFound);
      }
    }
  }
}
