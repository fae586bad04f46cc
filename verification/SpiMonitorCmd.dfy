/** The SPI monitor's allow-command table: 32 slots with lock and valid bits
  * (src/spimonitor/hardware.rs). */
module SpiMonitorCmd {
  import opened Bytes
  import opened Scan

  const SLOTS: nat := 32
  const MAX_CMD_INDEX: nat := 31

  const LOCK_MASK: bv32 := 0x0080_0000
  const VALID_ONCE_BIT: bv32 := 0x8000_0000
  const VALID_BIT: bv32 := 0x4000_0000
  const CMD_MASK: bv32 := 0xFF

  const FLAG_VALID_ONCE: bv32 := 1
  const FLAG_LOCK_ALL: bv32 := 2

  const CMD_EN4B: bv8 := 0xB7
  const CMD_EX4B: bv8 := 0xE9
  const CMD_WREAR: bv8 := 0xC5

  datatype Error =
    | CommandNotFound(cmd: bv8)
    | NoAllowCmdSlotAvail(cmd: bv8)
    | InvalidCmdSlotIndex(index: nat)
    | AllowCmdSlotInvalid(cmd: bv8)

  datatype Result = Ok(value: nat) | Err(error: Error)

  type Table = t: seq<bv32> | |t| == SLOTS witness seq(SLOTS, _ => 0)

  // ---- slots

  predicate Matches(w: bv32, cmd: bv8) { w & CMD_MASK == cmd as bv32 }

  predicate Locked(w: bv32) { w & LOCK_MASK != 0 }

  function ValidFlag(flag: bv32): bv32 {
    if flag & FLAG_VALID_ONCE > 0 then VALID_ONCE_BIT else VALID_BIT
  }

  function Match(cmd: bv8): bv32 -> bool { w => Matches(w, cmd) }

  /** A slot that holds the command and is not locked. */
  function Open(cmd: bv8): bv32 -> bool { w => Matches(w, cmd) && !Locked(w) }

  /** A slot that holds the command, valid and locked. */
  function Stuck(cmd: bv8): bv32 -> bool { w => Matches(w, cmd) && Locked(w) && w & VALID_BIT != 0 }

  function Empty(): bv32 -> bool { w => w == 0 }

  function AnyWord(): bv32 -> bool { w => true }

  function Zero(): bv32 -> bv32 { w => 0 }

  function SetLock(): bv32 -> bv32 { w => w | LOCK_MASK }

  lemma LockBit(w: bv32, cmd: bv8)
    ensures Locked(w | LOCK_MASK) && (Locked(w) ==> w | LOCK_MASK == w)
    ensures Matches(w | LOCK_MASK, cmd) <==> Matches(w, cmd)
  {
  }

  lemma EmptyWord(cmd: bv8)
    ensures Open(cmd)(0) <==> cmd == 0
  {
  }

  /** Setting a valid bit enables the slot and changes neither its command nor its lock. */
  lemma Enabling(v: bv32, cmd: bv8, flag: bv32, e: bv32)
    requires e == v | ValidFlag(flag)
    ensures (Matches(e, cmd) <==> Matches(v, cmd)) && (Locked(e) <==> Locked(v))
    ensures e != 0 && e & ValidFlag(flag) != 0
  {
    var bit := ValidFlag(flag);
    OrKeeps(v, bit, CMD_MASK);
    OrKeeps(v, bit, LOCK_MASK);
    OrSets(v, bit);
  }

  lemma OrKeeps(v: bv32, b: bv32, mask: bv32)
    requires b & mask == 0
    ensures (v | b) & mask == v & mask
  {
  }

  lemma OrSets(v: bv32, b: bv32)
    requires b != 0
    ensures (v | b) & b != 0 && v | b != 0
  {
    assert (v | b) & b == b;
  }

  // ---- known commands

  /** The register value of a known command names the command and is neither locked nor
    * valid. */
  predicate Fresh(v: bv32, cmd: bv8) {
    Matches(v, cmd) && !Locked(v) && v & (VALID_BIT | VALID_ONCE_BIT) == 0
  }

  ghost predicate IsCatalog(f: bv8 -> Option<bv32>) {
    && (forall cmd :: f(cmd).Some? ==> Fresh(f(cmd).value, cmd))
    && (forall cmd :: FixedSlot(cmd).Some? ==> f(cmd).Some?)
  }

  /** The values of the known commands. */
  type Catalog = f: bv8 -> Option<bv32> | IsCatalog(f)
    ghost witness BareCommand

  function BareCommand(cmd: bv8): Option<bv32> { Some(cmd as bv32) }

  /** The slot reserved for a command. */
  function FixedSlot(cmd: bv8): (s: Option<nat>)
    ensures s.Some? ==> s.value < SLOTS
  {
    if cmd == CMD_EN4B then Some(0) else if cmd == CMD_EX4B then Some(1)
    else if cmd == CMD_WREAR then Some(MAX_CMD_INDEX) else None
  }

  /** The value that enables a command, if it is known. */
  function EnabledValue(known: Catalog, cmd: bv8, flag: bv32): (v: Option<bv32>)
    ensures v.Some? <==> known(cmd).Some?
    ensures v.Some? ==> Open(cmd)(v.value) && v.value != 0 && v.value & ValidFlag(flag) != 0
    ensures v.Some? ==> IsEnabled(v.value, known(cmd).value, flag)
  {
    match known(cmd)
    case None => None
    case Some(v) =>
      Enabling(v, cmd, flag, v | ValidFlag(flag));
      EnabledBits(v, flag);
      Some(v | ValidFlag(flag))
  }

  /** The one valid bit that a flag asks for. */
  function ValidBitOf(flag: bv32): bv32 {
    if flag & 1 == 1 then 0x8000_0000 else 0x4000_0000
  }

  /** w is the register value v, with exactly the valid bit that the flag asks for. */
  predicate IsEnabled(w: bv32, v: bv32, flag: bv32) {
    w & 0x3FFF_FFFF == v & 0x3FFF_FFFF && w & 0xC000_0000 == ValidBitOf(flag)
  }

  /** w is the slot word v, with the valid bit that the flag asks for and all else as it was. */
  predicate IsReenabled(w: bv32, v: bv32, flag: bv32) {
    w & ValidBitOf(flag) == ValidBitOf(flag) && w & !ValidBitOf(flag) == v & !ValidBitOf(flag)
  }

  lemma EnabledBits(v: bv32, flag: bv32)
    ensures v & (VALID_BIT | VALID_ONCE_BIT) == 0 ==> IsEnabled(v | ValidFlag(flag), v, flag)
    ensures IsReenabled(v | ValidFlag(flag), v, flag)
  {
    FlagBit(flag);
    if ValidFlag(flag) == VALID_BIT { SetValid(v); } else { SetValidOnce(v); }
  }

  lemma FlagBit(flag: bv32)
    ensures ValidFlag(flag) == ValidBitOf(flag)
    ensures ValidFlag(flag) == VALID_BIT || ValidFlag(flag) == VALID_ONCE_BIT
  {
    assert flag & 1 == 0 || flag & 1 == 1;
  }

  lemma SetValid(v: bv32)
    ensures (v | 0x4000_0000) & 0x3FFF_FFFF == v & 0x3FFF_FFFF
    ensures v & 0xC000_0000 == 0 ==> (v | 0x4000_0000) & 0xC000_0000 == 0x4000_0000
    ensures (v | 0x4000_0000) & 0x4000_0000 == 0x4000_0000
    ensures (v | 0x4000_0000) & !0x4000_0000 == v & !0x4000_0000
  {
  }

  lemma SetValidOnce(v: bv32)
    ensures (v | 0x8000_0000) & 0x3FFF_FFFF == v & 0x3FFF_FFFF
    ensures v & 0xC000_0000 == 0 ==> (v | 0x8000_0000) & 0xC000_0000 == 0x8000_0000
    ensures (v | 0x8000_0000) & 0x8000_0000 == 0x8000_0000
    ensures (v | 0x8000_0000) & !0x8000_0000 == v & !0x8000_0000
  {
  }

  // ---- what each operation does to the table

  datatype Op =
    | Add(cmd: bv8, flag: bv32)
    | Remove(cmd: bv8)
    | Lock(cmd: bv8, flag: bv32)
    | Init(cmds: seq<bv8>, flag: bv32)

  /** Enable the first unlocked slot of the command; failing that, write its reserved slot;
    * failing that, the first empty slot from 2 on. */
  function AddEffect(known: Catalog, t: Table, cmd: bv8, flag: bv32): (Table, Result) {
    var i := Find(t, Open(cmd), 0);
    if i < SLOTS then (t[i := t[i] | ValidFlag(flag)], Ok(i))
    else AddNewEffect(known, t, cmd, flag)
  }

  function AddNewEffect(known: Catalog, t: Table, cmd: bv8, flag: bv32): (Table, Result) {
    match EnabledValue(known, cmd, flag)
    case None => (t, Err(CommandNotFound(cmd)))
    case Some(v) =>
      var i := if FixedSlot(cmd).Some? then FixedSlot(cmd).value else Find(t, Empty(), 2);
      if i < SLOTS then (t[i := v], Ok(i)) else (t, Err(NoAllowCmdSlotAvail(cmd)))
  }

  /** Clear the command's unlocked slots, up to the first locked slot that is valid. */
  function RemoveEffect(t: Table, cmd: bv8): (Table, Result) {
    var stop := Find(t, Stuck(cmd), 0);
    (Rewrite(t, Open(cmd), Zero(), stop),
     if stop < SLOTS then Err(AllowCmdSlotInvalid(cmd)) else Counted(t, cmd))
  }

  /** Lock the command's slots, or all of them. */
  function LockEffect(t: Table, cmd: bv8, flag: bv32): (Table, Result) {
    if flag & FLAG_LOCK_ALL != 0 then (Rewrite(t, AnyWord(), SetLock(), SLOTS), Ok(SLOTS))
    else (Rewrite(t, Open(cmd), SetLock(), SLOTS), Counted(t, cmd))
  }

  /** How many unlocked slots the command has; none is an error. */
  function Counted(t: Table, cmd: bv8): Result {
    var n := Count(t, Open(cmd), SLOTS);
    if n == 0 then Err(CommandNotFound(cmd)) else Ok(n)
  }

  function Apply(known: Catalog, t: Table, op: Op): Table {
    match op
    case Add(cmd, flag) => AddEffect(known, t, cmd, flag).0
    case Remove(cmd) => RemoveEffect(t, cmd).0
    case Lock(cmd, flag) => LockEffect(t, cmd, flag).0
    case Init(cmds, flag) => Filled(known, t, cmds, flag)
  }

  /** The table after a run of operations. */
  function Run(known: Catalog, t: Table, ops: seq<Op>): Table
    decreases |ops|
  {
    if ops == [] then t else Apply(known, Run(known, t, ops[..|ops| - 1]), ops[|ops| - 1])
  }

  // ---- locks

  /** The operation writes slot i without looking at its lock: it adds the command the slot is
    * reserved for while no unlocked slot holds that command, or it initialises the table from
    * a list that has a command for the slot. */
  predicate WritesOver(known: Catalog, t: Table, op: Op, i: nat) {
    match op
    case Add(cmd, _) => FixedSlot(cmd) == Some(i) && Find(t, Open(cmd), 0) == SLOTS
    case Remove(_) => false
    case Lock(_, _) => false
    case Init(cmds, _) => SlotCommand(known, cmds, i).Some?
  }

  /** An operation changes a locked slot exactly when it writes it without looking. */
  lemma LockedSlotsKept(known: Catalog, t: Table, op: Op, i: nat)
    requires i < SLOTS && Locked(t[i])
    ensures Apply(known, t, op)[i] != t[i] <==> WritesOver(known, t, op, i)
  {
    LockBit(t[i], 0);
    NotEmpty(t[i]);
    match op
    case Add(cmd, flag) => AddToLocked(known, t, cmd, flag, i);
    case Remove(cmd) =>
    case Lock(cmd, flag) =>
    case Init(cmds, flag) => InitLocked(known, t, cmds, flag, i);
  }

  lemma AddToLocked(known: Catalog, t: Table, cmd: bv8, flag: bv32, i: nat)
    requires i < SLOTS && Locked(t[i])
    ensures AddEffect(known, t, cmd, flag).0[i] != t[i] <==> FixedSlot(cmd) == Some(i) && Find(t, Open(cmd), 0) == SLOTS
  {
    NotEmpty(t[i]);
    if EnabledValue(known, cmd, flag).Some? {
      assert Open(cmd)(EnabledValue(known, cmd, flag).value);
    }
  }

  lemma InitLocked(known: Catalog, t: Table, cmds: seq<bv8>, flag: bv32, i: nat)
    requires i < SLOTS && Locked(t[i])
    ensures Filled(known, t, cmds, flag)[i] != t[i] <==> SlotCommand(known, cmds, i).Some?
  {
    var c := SlotCommand(known, cmds, i);
    if c.Some? {
      SlotCommandKnown(known, cmds, i);
      assert Open(c.value)(EnabledValue(known, c.value, flag).value);
    }
  }

  lemma NotEmpty(w: bv32)
    requires Locked(w)
    ensures w != 0
  {
  }

  /** Slot i holds its word during the first n operations. */
  ghost predicate Kept(known: Catalog, t: Table, ops: seq<Op>, i: nat, n: nat)
    requires i < SLOTS && n <= |ops|
  {
    forall k | 0 <= k <= n :: Run(known, t, ops[..k])[i] == t[i]
  }

  /** None of the first n operations writes slot i without looking. */
  ghost predicate Spared(known: Catalog, t: Table, ops: seq<Op>, i: nat, n: nat)
    requires i < SLOTS && n <= |ops|
  {
    forall k | 0 <= k < n :: !WritesOver(known, Run(known, t, ops[..k]), ops[k], i)
  }

  lemma RunStep(known: Catalog, t: Table, ops: seq<Op>, k: nat)
    requires k < |ops|
    ensures Run(known, t, ops[..k + 1]) == Apply(known, Run(known, t, ops[..k]), ops[k])
  {
    assert ops[..k + 1][..k] == ops[..k];
  }

  /** Over a run, a locked slot stays what it is exactly until an operation writes it without
    * looking. */
  lemma {:induction false} LockedExactly(known: Catalog, t: Table, ops: seq<Op>, i: nat, n: nat)
    requires i < SLOTS && Locked(t[i]) && n <= |ops|
    ensures Kept(known, t, ops, i, n) <==> Spared(known, t, ops, i, n)
    decreases n
  {
    if n == 0 {
      assert Run(known, t, ops[..0]) == t;
    } else {
      LockedExactly(known, t, ops, i, n - 1);
      RunStep(known, t, ops, n - 1);
      if Run(known, t, ops[..n - 1])[i] == t[i] {
        LockedSlotsKept(known, Run(known, t, ops[..n - 1]), ops[n - 1], i);
      }
    }
  }

  /** So it never changes over a run that adds no command the slot is reserved for and
    * initialises from no list that fills it. */
  lemma LockedForGood(known: Catalog, t: Table, ops: seq<Op>, i: nat)
    requires i < SLOTS && Locked(t[i])
    requires forall op | op in ops ::
      && (op.Add? ==> FixedSlot(op.cmd) != Some(i))
      && (op.Init? ==> SlotCommand(known, op.cmds, i).None?)
    ensures Run(known, t, ops)[i] == t[i]
  {
    LockedExactly(known, t, ops, i, |ops|);
    forall k | 0 <= k < |ops|
      ensures !WritesOver(known, Run(known, t, ops[..k]), ops[k], i)
    {
      assert ops[k] in ops;
    }
    assert Spared(known, t, ops, i, |ops|);
    assert ops[..|ops|] == ops;
  }

  // ---- what callers can count on

  /** A successful add leaves the command enabled and unlocked in the slot it names, and
    * changes no other slot. */
  lemma AddEnables(known: Catalog, t: Table, cmd: bv8, flag: bv32)
    ensures Added(t, AddEffect(known, t, cmd, flag), cmd, flag)
  {
    if Find(t, Open(cmd), 0) < SLOTS {
      var i := Find(t, Open(cmd), 0);
      ReuseEnables(t, i, t[i] | ValidFlag(flag), cmd, flag);
    } else {
      NewEnables(known, t, cmd, flag);
    }
  }

  lemma ReuseEnables(t: Table, i: nat, w: bv32, cmd: bv8, flag: bv32)
    requires i < SLOTS && Open(cmd)(t[i]) && w == t[i] | ValidFlag(flag)
    ensures Added(t, (t[i := w], Ok(i)), cmd, flag)
  {
    Enabling(t[i], cmd, flag, w);
  }

  /** The bits of a slot. */
  lemma SlotBits()
    ensures CMD_MASK == 0xFF && LOCK_MASK == 0x0080_0000
    ensures VALID_BIT == 0x4000_0000 && VALID_ONCE_BIT == 0x8000_0000
    ensures FLAG_VALID_ONCE == 1 && FLAG_LOCK_ALL == 2
  {
  }

  /** The slot a command is bound to. */
  function ReservedFor(cmd: bv8): Option<nat> {
    if cmd == 0xB7 then Some(0) else if cmd == 0xE9 then Some(1) else if cmd == 0xC5 then Some(31) else None
  }

  /** The first unlocked slot of the command is enabled again. */
  ghost predicate Reused(t: Table, e: (Table, Result), cmd: bv8, flag: bv32) {
    && e.1.Ok? && e.1.value < SLOTS && OnlyChanged(t, e.0, e.1.value)
    && Open(cmd)(t[e.1.value]) && (forall j: nat | j < e.1.value :: !Open(cmd)(t[j]))
    && IsReenabled(e.0[e.1.value], t[e.1.value], flag)
  }

  /** The reserved slot, or the first empty one from 2 on, gets the command's register value v. */
  ghost predicate PutInto(t: Table, e: (Table, Result), cmd: bv8, v: bv32, flag: bv32) {
    if ReservedFor(cmd).None? && (forall j | 2 <= j < SLOTS :: t[j] != 0) then
      e == (t, Err(NoAllowCmdSlotAvail(cmd)))
    else
      && e.1.Ok? && e.1.value < SLOTS && OnlyChanged(t, e.0, e.1.value)
      && (ReservedFor(cmd).Some? ==> e.1.value == ReservedFor(cmd).value)
      && (ReservedFor(cmd).None? ==> IsFirstEmpty(t, e.1.value))
      && IsEnabled(e.0[e.1.value], v, flag)
  }

  predicate OnlyChanged(t: Table, t1: Table, i: nat) {
    forall j | 0 <= j < SLOTS && j != i :: t1[j] == t[j]
  }

  predicate IsFirstEmpty(t: Table, i: nat) {
    2 <= i < SLOTS && t[i] == 0 && forall j | 2 <= j < i :: t[j] != 0
  }

  predicate SomeOpen(t: Table, cmd: bv8) {
    exists j: nat :: j < SLOTS && Open(cmd)(t[j])
  }

  /** Which slot an add writes, and every bit of what it writes there. */
  lemma AddWrites(known: Catalog, t: Table, cmd: bv8, flag: bv32)
    ensures
      var e := AddEffect(known, t, cmd, flag);
      if SomeOpen(t, cmd) then Reused(t, e, cmd, flag)
      else if known(cmd).None? then e == (t, Err(CommandNotFound(cmd)))
      else PutInto(t, e, cmd, known(cmd).value, flag)
  {
    SomeOpenIs(t, cmd);
    if SomeOpen(t, cmd) {
      AddReuses(known, t, cmd, flag);
    } else {
      assert AddEffect(known, t, cmd, flag) == AddNewEffect(known, t, cmd, flag);
      if known(cmd).Some? { NewWrites(known, t, cmd, flag); }
    }
  }

  lemma SomeOpenIs(t: Table, cmd: bv8)
    ensures SomeOpen(t, cmd) <==> Find(t, Open(cmd), 0) < SLOTS
  {
    var i := Find(t, Open(cmd), 0);
    if i < SLOTS { assert Open(cmd)(t[i]); }
  }

  lemma AddReuses(known: Catalog, t: Table, cmd: bv8, flag: bv32)
    requires Find(t, Open(cmd), 0) < SLOTS
    ensures Reused(t, AddEffect(known, t, cmd, flag), cmd, flag)
  {
    var i := Find(t, Open(cmd), 0);
    var w := AddEffect(known, t, cmd, flag).0[i];
    ReuseWrites(t, i, w, cmd, flag);
    SameEffect(AddEffect(known, t, cmd, flag), t, i, w);
  }

  lemma SameEffect(e: (Table, Result), t: Table, i: nat, w: bv32)
    requires i < SLOTS && e.1 == Ok(i) && e.0[i] == w && OnlyChanged(t, e.0, i)
    ensures e == (t[i := w], Ok(i))
  {
    assert e.0 == t[i := w];
  }

  lemma ReuseWrites(t: Table, i: nat, w: bv32, cmd: bv8, flag: bv32)
    requires i < SLOTS && Open(cmd)(t[i]) && (forall j: nat | j < i :: !Open(cmd)(t[j]))
    requires w == t[i] | ValidFlag(flag)
    ensures Reused(t, (t[i := w], Ok(i)), cmd, flag)
  {
    EnabledBits(t[i], flag);
  }

  lemma NewWrites(known: Catalog, t: Table, cmd: bv8, flag: bv32)
    requires known(cmd).Some?
    ensures PutInto(t, AddNewEffect(known, t, cmd, flag), cmd, known(cmd).value, flag)
  {
    var v := EnabledValue(known, cmd, flag).value;
    FirstEmptyIs(t);
    PutWrites(t, cmd, v, known(cmd).value, flag);
  }

  lemma FirstEmptyIs(t: Table)
    ensures var i := Find(t, Empty(), 2);
      if i < SLOTS then IsFirstEmpty(t, i) else forall j | 2 <= j < SLOTS :: t[j] != 0
  {
    var i := Find(t, Empty(), 2);
    forall j | 2 <= j < i
      ensures t[j] != 0
    {
      assert !Empty()(t[j]);
    }
  }

  lemma PutWrites(t: Table, cmd: bv8, w: bv32, v: bv32, flag: bv32)
    requires IsEnabled(w, v, flag)
    ensures
      var i := if FixedSlot(cmd).Some? then FixedSlot(cmd).value else Find(t, Empty(), 2);
      PutInto(t, if i < SLOTS then (t[i := w], Ok(i)) else (t, Err(NoAllowCmdSlotAvail(cmd))), cmd, v, flag)
  {
    FirstEmptyIs(t);
  }

  /** After initialising, a slot that the list puts a command into has exactly its register value
    * and the valid bit; the others are as they were. */
  lemma InitWrites(known: Catalog, t: Table, cmds: seq<bv8>, flag: bv32, j: nat)
    requires j < SLOTS
    ensures
      var w, c := Filled(known, t, cmds, flag)[j], SlotCommand(known, cmds, j);
      if c.Some? then known(c.value).Some? && IsEnabled(w, known(c.value).value, flag) else w == t[j]
  {
    if SlotCommand(known, cmds, j).Some? {
      SlotCommandKnown(known, cmds, j);
    }
  }

  ghost predicate Added(t: Table, e: (Table, Result), cmd: bv8, flag: bv32) {
    match e.1
    case Ok(i) =>
      && i < SLOTS && Open(cmd)(e.0[i]) && e.0[i] & ValidFlag(flag) != 0
      && forall j | 0 <= j < SLOTS && j != i :: e.0[j] == t[j]
    case Err(_) => e.0 == t
  }

  lemma NewEnables(known: Catalog, t: Table, cmd: bv8, flag: bv32)
    ensures Added(t, AddNewEffect(known, t, cmd, flag), cmd, flag)
  {
  }

  /** A command that is in the table but only in locked slots is added all the same, exactly
    * if it is known and has a reserved slot or an empty one is left. */
  lemma AddOfLocked(known: Catalog, t: Table, cmd: bv8, flag: bv32)
    requires Find(t, Match(cmd), 0) < SLOTS && Find(t, Open(cmd), 0) == SLOTS
    ensures AddEffect(known, t, cmd, flag).1.Ok? <==>
      known(cmd).Some? && (FixedSlot(cmd).Some? || exists j :: 2 <= j < SLOTS && t[j] == 0)
  {
    var i := Find(t, Empty(), 2);
    if j :| 2 <= j < SLOTS && t[j] == 0 {
      assert Empty()(t[j]);
    }
  }

  /** The unlocked slots of a command. */
  ghost function OpenSlots(t: Table, cmd: bv8): set<int> {
    Where(t, Open(cmd), SLOTS)
  }

  lemma CountedIsSize(t: Table, cmd: bv8)
    ensures Counted(t, cmd) ==
      if OpenSlots(t, cmd) == {} then Err(CommandNotFound(cmd)) else Ok(|OpenSlots(t, cmd)|)
  {
    CountIsSize(t, Open(cmd), SLOTS);
  }

  /** When remove succeeds, its count is the number of slots it cleared, which are all the
    * unlocked slots of the command; and none is left, except that cleared slots themselves
    * look like slots of command 0. */
  lemma RemoveClears(t: Table, cmd: bv8)
    requires RemoveEffect(t, cmd).1.Ok?
    ensures RemoveEffect(t, cmd).1 == Ok(|OpenSlots(t, cmd)|)
    ensures forall j | 0 <= j < SLOTS :: RemoveEffect(t, cmd).0[j] == if j in OpenSlots(t, cmd) then 0 else t[j]
    ensures OpenSlots(RemoveEffect(t, cmd).0, cmd) == {} <==> cmd != 0
  {
    var t1 := RemoveEffect(t, cmd).0;
    CountedIsSize(t, cmd);
    EmptyWord(cmd);
    assert t1 == Rewrite(t, Open(cmd), Zero(), SLOTS);
    forall j | 0 <= j < SLOTS
      ensures Open(cmd)(t1[j]) <==> Open(cmd)(t[j]) && cmd == 0
    {
      assert t1[j] == if Open(cmd)(t[j]) then 0 else t[j];
    }
    var j :| j in OpenSlots(t, cmd);
    assert cmd == 0 ==> j in OpenSlots(t1, cmd);
  }

  /** Lock locks every slot of the command and counts those it newly locked; locking again
    * finds nothing to do and reports the command as not found. */
  lemma LockLocksAll(t: Table, cmd: bv8, flag: bv32)
    requires flag & FLAG_LOCK_ALL == 0
    ensures var (t1, r) := LockEffect(t, cmd, flag);
      && (forall j | 0 <= j < SLOTS && Matches(t[j], cmd) :: Locked(t1[j]) && Matches(t1[j], cmd))
      && r == (if OpenSlots(t, cmd) == {} then Err(CommandNotFound(cmd)) else Ok(|OpenSlots(t, cmd)|))
      && LockEffect(t1, cmd, flag) == (t1, Err(CommandNotFound(cmd)))
  {
    var t1 := Rewrite(t, Open(cmd), SetLock(), SLOTS);
    forall j | 0 <= j < SLOTS
      ensures Matches(t[j], cmd) ==> Locked(t1[j]) && Matches(t1[j], cmd)
      ensures !Open(cmd)(t1[j])
    {
      SlotLocked(t, cmd, j);
    }
    CountedIsSize(t, cmd);
    LockedIsDone(t1, cmd, flag);
  }

  lemma SlotLocked(t: Table, cmd: bv8, j: nat)
    requires j < SLOTS
    ensures var w := Rewrite(t, Open(cmd), SetLock(), SLOTS)[j];
      (Matches(t[j], cmd) ==> Locked(w) && Matches(w, cmd)) && !Open(cmd)(w)
  {
    LockBit(t[j], cmd);
  }

  lemma LockedIsDone(t: Table, cmd: bv8, flag: bv32)
    requires flag & FLAG_LOCK_ALL == 0 && forall j | 0 <= j < SLOTS :: !Open(cmd)(t[j])
    ensures LockEffect(t, cmd, flag) == (t, Err(CommandNotFound(cmd)))
  {
    CountIsZero(t, Open(cmd), SLOTS);
    RewriteSkips(t, Open(cmd), SetLock(), 0, SLOTS);
    RewriteNone(t, Open(cmd), SetLock());
  }

  /** Locking everything locks everything. */
  lemma LockAllLocksAll(t: Table, cmd: bv8, flag: bv32)
    requires flag & FLAG_LOCK_ALL != 0
    ensures LockEffect(t, cmd, flag).1 == Ok(SLOTS)
    ensures forall j | 0 <= j < SLOTS :: Locked(LockEffect(t, cmd, flag).0[j])
  {
    forall j | 0 <= j < SLOTS
      ensures Locked(Rewrite(t, AnyWord(), SetLock(), SLOTS)[j])
    {
      LockBit(t[j], cmd);
    }
  }

  /** Adding a command that was not there and removing it again restores the table. */
  lemma RemoveUndoesAdd(known: Catalog, t: Table, cmd: bv8, flag: bv32)
    requires FixedSlot(cmd).None? && Find(t, Match(cmd), 0) == SLOTS
    requires AddEffect(known, t, cmd, flag).1.Ok?
    ensures RemoveEffect(AddEffect(known, t, cmd, flag).0, cmd) == (t, Ok(1))
  {
    var (t1, r) := AddEffect(known, t, cmd, flag);
    assert forall j | 0 <= j < SLOTS :: !Match(cmd)(t[j]);
    FindIs(t, Open(cmd), 0, SLOTS);
    var i := r.value;
    assert t[i] == 0 && t1 == t[i := t1[i]] && Open(cmd)(t1[i]);
    RemoveOnly(t, t1, cmd, i);
  }

  lemma RemoveOnly(t: Table, t1: Table, cmd: bv8, i: nat)
    requires i < SLOTS && t[i] == 0 && t1 == t[i := t1[i]] && Open(cmd)(t1[i])
    requires forall j | 0 <= j < SLOTS :: !Match(cmd)(t[j])
    ensures RemoveEffect(t1, cmd) == (t, Ok(1))
  {
    forall j | 0 <= j < SLOTS && j != i
      ensures !Match(cmd)(t1[j])
    {
      assert t1[j] == t[j];
    }
    FindIs(t1, Stuck(cmd), 0, SLOTS);
    CountSkips(t1, Open(cmd), 0, i);
    CountSkips(t1, Open(cmd), i + 1, SLOTS);
    assert Rewrite(t1, Open(cmd), Zero(), SLOTS) == t;
  }

  // ---- the registers

  class AllowTable {
    const regs: array<bv32>
    const known: Catalog

    predicate Valid() { regs.Length == SLOTS }

    constructor (known: Catalog)
      ensures Valid() && fresh(regs) && this.known == known
    {
      regs := new bv32[SLOTS](_ => 0);
      this.known := known;
    }

    /** The first slot from startOffset on that holds the command. */
    method GetAllowCmdSlot(cmd: bv8, startOffset: nat) returns (r: Result)
      requires Valid()
      ensures startOffset >= SLOTS ==> r == Err(InvalidCmdSlotIndex(startOffset))
      ensures startOffset < SLOTS ==>
        var i := Find(regs[..], Match(cmd), startOffset);
        r == if i < SLOTS then Ok(i) else Err(CommandNotFound(cmd))
    {
      if startOffset >= SLOTS {
        return Err(InvalidCmdSlotIndex(startOffset));
      }
      for index := startOffset to SLOTS
        invariant forall j | startOffset <= j < index :: !Match(cmd)(regs[..][j])
      {
        if Matches(regs[index], cmd) {
          FindIs(regs[..], Match(cmd), startOffset, index);
          return Ok(index);
        }
      }
      FindIs(regs[..], Match(cmd), startOffset, SLOTS);
      r := Err(CommandNotFound(cmd));
    }

    method GetEmptyAllowCmdSlot() returns (r: Option<nat>)
      requires Valid()
      ensures var i := Find(regs[..], Empty(), 2); r == if i < SLOTS then Some(i) else None
    {
      for index := 2 to SLOTS
        invariant forall j | 2 <= j < index :: !Empty()(regs[..][j])
      {
        if regs[index] == 0 {
          FindIs(regs[..], Empty(), 2, index);
          return Some(index);
        }
      }
      FindIs(regs[..], Empty(), 2, SLOTS);
      r := None;
    }

    method WriteSlot(i: nat, v: bv32)
      requires Valid() && i < SLOTS
      modifies regs
      ensures regs[..] == old(regs[..])[i := v]
    {
      regs[i] := v;
    }

    /** Write a reserved slot, if the command has one. */
    method WriteFixedLoc(cmd: bv8, v: bv32) returns (i: nat)
      requires Valid()
      modifies regs
      ensures FixedSlot(cmd).Some? ==> i == FixedSlot(cmd).value && regs[..] == old(regs[..])[i := v]
      ensures FixedSlot(cmd).None? ==> i == MAX_CMD_INDEX + 1 && regs[..] == old(regs[..])
    {
      if cmd == CMD_EN4B {
        WriteSlot(0, v);
        i := 0;
      } else if cmd == CMD_EX4B {
        WriteSlot(1, v);
        i := 1;
      } else if cmd == CMD_WREAR {
        WriteSlot(MAX_CMD_INDEX, v);
        i := MAX_CMD_INDEX;
      } else {
        i := MAX_CMD_INDEX + 1;
      }
    }

    method AddNewCommand(cmd: bv8, flag: bv32) returns (r: Result)
      requires Valid()
      modifies regs
      ensures (regs[..], r) == AddNewEffect(known, old(regs[..]), cmd, flag)
    {
      var v := EnabledValue(known, cmd, flag);
      if v.None? {
        return Err(CommandNotFound(cmd));
      }
      var index := WriteFixedLoc(cmd, v.value);
      if index <= MAX_CMD_INDEX {
        return Ok(index);
      }
      var slot := GetEmptyAllowCmdSlot();
      if slot.None? {
        return Err(NoAllowCmdSlotAvail(cmd));
      }
      WriteSlot(slot.value, v.value);
      r := Ok(slot.value);
    }

    /** Enable a command: in a slot that has it, if one is not locked, else in a new slot. */
    method AddAllowCommand(cmd: bv8, flag: bv32) returns (r: Result)
      requires Valid()
      modifies regs
      ensures (regs[..], r) == AddEffect(known, old(regs[..]), cmd, flag)
    {
      var offset := 0;
      while offset < SLOTS
        invariant offset <= SLOTS && regs[..] == old(regs[..])
        invariant forall j | 0 <= j < offset :: !Open(cmd)(regs[..][j])
      {
        var found := GetAllowCmdSlot(cmd, offset);
        if found.Err? {
          break;
        }
        var index := found.value;
        if Locked(regs[index]) {
          offset := index + 1;
          continue;
        }
        FindIs(regs[..], Open(cmd), 0, index);
        WriteSlot(index, regs[index] | ValidFlag(flag));
        return Ok(index);
      }
      FindIs(regs[..], Open(cmd), 0, SLOTS);
      r := AddNewCommand(cmd, flag);
    }

    /** One round of a scan that rewrites the command's unlocked slots: the slots before
      * offset are done, and index is the next slot of the command. */
    lemma ScanRound(t: Table, cmd: bv8, g: bv32 -> bv32, offset: nat, index: nat)
      requires Valid() && offset < SLOTS && regs[..] == Rewrite(t, Open(cmd), g, offset)
      requires index == Find(regs[..], Match(cmd), offset)
      ensures forall j | offset <= j < index :: !Match(cmd)(t[j])
      ensures Count(t, Open(cmd), index) == Count(t, Open(cmd), offset)
      ensures Rewrite(t, Open(cmd), g, index) == regs[..]
      ensures index < SLOTS ==> Matches(t[index], cmd) && regs[index] == t[index]
      ensures index < SLOTS && !Open(cmd)(t[index]) ==>
        && Count(t, Open(cmd), index + 1) == Count(t, Open(cmd), offset)
        && Rewrite(t, Open(cmd), g, index + 1) == regs[..]
      ensures index < SLOTS && Open(cmd)(t[index]) ==>
        && Count(t, Open(cmd), index + 1) == Count(t, Open(cmd), offset) + 1
        && Rewrite(t, Open(cmd), g, index + 1) == regs[..][index := g(t[index])]
    {
      forall j | offset <= j < SLOTS
        ensures regs[..][j] == t[j]
      {
      }
      CountSkips(t, Open(cmd), offset, index);
      RewriteSkips(t, Open(cmd), g, offset, index);
      if index < SLOTS {
        if Open(cmd)(t[index]) {
          RewriteStep(t, Open(cmd), g, index);
        } else {
          RewriteSkips(t, Open(cmd), g, index, index + 1);
        }
      }
    }

    /** Clear the command's unlocked slots, up to the first locked one that is valid. */
    method RemoveAllowCommand(cmd: bv8) returns (r: Result)
      requires Valid()
      modifies regs
      ensures (regs[..], r) == RemoveEffect(old(regs[..]), cmd)
    {
      var stop, count := ClearSlots(cmd);
      if stop < SLOTS {
        return Err(AllowCmdSlotInvalid(cmd));
      }
      r := if count == 0 then Err(CommandNotFound(cmd)) else Ok(count);
    }

    /** The scan of a remove: where it stops, and how many slots it cleared. */
    method ClearSlots(cmd: bv8) returns (stop: nat, count: nat)
      requires Valid()
      modifies regs
      ensures stop == Find(old(regs[..]), Stuck(cmd), 0)
      ensures count == Count(old(regs[..]), Open(cmd), stop)
      ensures regs[..] == Rewrite(old(regs[..]), Open(cmd), Zero(), stop)
    {
      var offset := 0;
      count := 0;
      ghost var t: Table := regs[..];
      RewriteNone(t, Open(cmd), Zero());
      while offset < SLOTS
        invariant offset <= SLOTS && regs[..] == Rewrite(t, Open(cmd), Zero(), offset)
        invariant count == Count(t, Open(cmd), offset)
        invariant Find(t, Stuck(cmd), 0) >= offset
      {
        var found := GetAllowCmdSlot(cmd, offset);
        ghost var index := if found.Ok? then found.value else SLOTS;
        ScanRound(t, cmd, Zero(), offset, index);
        NoneStuck(t, cmd, offset, index);
        if found.Err? {
          return SLOTS, count;
        }
        var cleared, stuck := ClearSlot(cmd, found.value);
        if stuck {
          return found.value, count;
        }
        if cleared {
          count := count + 1;
        }
        offset := found.value + 1;
      }
      stop := SLOTS;
    }

    /** Only slots of the command can stop a scan. */
    lemma NoneStuck(t: Table, cmd: bv8, offset: nat, index: nat)
      requires offset <= index <= SLOTS && Find(t, Stuck(cmd), 0) >= offset
      requires forall j | offset <= j < index :: !Match(cmd)(t[j])
      ensures Find(t, Stuck(cmd), 0) >= index
      ensures index < SLOTS && Stuck(cmd)(t[index]) ==> Find(t, Stuck(cmd), 0) == index
      ensures index < SLOTS && !Stuck(cmd)(t[index]) ==> Find(t, Stuck(cmd), 0) > index
    {
    }

    /** Clear one slot of the command, unless it is locked; a locked slot that is valid is an
      * error. */
    method ClearSlot(cmd: bv8, index: nat) returns (cleared: bool, stuck: bool)
      requires Valid() && index < SLOTS && Matches(regs[index], cmd)
      modifies regs
      ensures cleared == Open(cmd)(old(regs[index])) && stuck == Stuck(cmd)(old(regs[index]))
      ensures regs[..] == if cleared then old(regs[..])[index := 0] else old(regs[..])
      ensures cleared ==> !stuck
    {
      cleared, stuck := false, false;
      if !Locked(regs[index]) {
        WriteSlot(index, 0);
        cleared := true;
      } else if regs[index] & VALID_BIT != 0 {
        stuck := true;
      }
    }

    /** Lock the command's slots, or all of them. */
    method LockAllowCommandTable(cmd: bv8, flag: bv32) returns (r: Result)
      requires Valid()
      modifies regs
      ensures (regs[..], r) == LockEffect(old(regs[..]), cmd, flag)
    {
      if flag & FLAG_LOCK_ALL != 0 {
        LockAll();
        return Ok(SLOTS);
      }
      r := LockCommand(cmd);
    }

    method LockCommand(cmd: bv8) returns (r: Result)
      requires Valid()
      modifies regs
      ensures regs[..] == Rewrite(old(regs[..]), Open(cmd), SetLock(), SLOTS)
      ensures r == Counted(old(regs[..]), cmd)
    {
      var offset, count := 0, 0;
      ghost var t: Table := regs[..];
      RewriteNone(t, Open(cmd), SetLock());
      while offset < SLOTS
        invariant offset <= SLOTS && regs[..] == Rewrite(t, Open(cmd), SetLock(), offset)
        invariant count == Count(t, Open(cmd), offset)
      {
        var found := GetAllowCmdSlot(cmd, offset);
        ScanRound(t, cmd, SetLock(), offset, if found.Ok? then found.value else SLOTS);
        if found.Err? {
          offset := SLOTS;
          break;
        }
        var index := found.value;
        var newlyLocked := LockSlot(cmd, index);
        if newlyLocked {
          count := count + 1;
        }
        offset := index + 1;
      }
      r := if count == 0 then Err(CommandNotFound(cmd)) else Ok(count);
    }

    /** Lock one slot of the command, if it is not locked yet. */
    method LockSlot(cmd: bv8, index: nat) returns (newly: bool)
      requires Valid() && index < SLOTS && Matches(regs[index], cmd)
      modifies regs
      ensures newly == Open(cmd)(old(regs[index]))
      ensures regs[..] == if newly then old(regs[..])[index := SetLock()(old(regs[index]))] else old(regs[..])
    {
      newly := !Locked(regs[index]);
      if newly {
        WriteSlot(index, regs[index] | LOCK_MASK);
      }
    }

    method LockAll()
      requires Valid()
      modifies regs
      ensures regs[..] == Rewrite(old(regs[..]), AnyWord(), SetLock(), SLOTS)
    {
      ghost var t := regs[..];
      RewriteNone(t, AnyWord(), SetLock());
      for index := 0 to SLOTS
        invariant regs[..] == Rewrite(t, AnyWord(), SetLock(), index)
      {
        RewriteStep(t, AnyWord(), SetLock(), index);
        assert regs[..][index] == t[index];
        WriteSlot(index, regs[index] | LOCK_MASK);
      }
    }

    /** Fill the table from a list: reserved slots by command, the others in order from slot
      * 2; what does not fit below the last slot is dropped. */
    method AllowCmdTableInit(cmds: seq<bv8>, flag: bv32)
      requires Valid()
      modifies regs
      ensures regs[..] == Filled(known, old(regs[..]), cmds, flag)
    {
      var index := 1;
      for i := 0 to |cmds|
        invariant index == 1 + |Dynamic(known, cmds[..i])|
        invariant regs[..] == Filled(known, old(regs[..]), cmds[..i], flag)
      {
        FilledExtends(known, old(regs[..]), cmds, flag, i);
        var v := EnabledValue(known, cmds[i], flag);
        if v.None? {
          continue;
        }
        var at := WriteFixedLoc(cmds[i], v.value);
        if at <= MAX_CMD_INDEX {
          continue;
        }
        index := index + 1;
        if index < MAX_CMD_INDEX {
          WriteSlot(index, v.value);
        }
      }
      assert cmds[..|cmds|] == cmds;
    }
  }

  // ---- filling the table

  /** The known commands of a list that have no reserved slot, in order. */
  function Dynamic(known: Catalog, cmds: seq<bv8>): seq<bv8> {
    if cmds == [] then []
    else
      var c := cmds[|cmds| - 1];
      Dynamic(known, cmds[..|cmds| - 1]) + (if known(c).Some? && FixedSlot(c).None? then [c] else [])
  }

  /** The command that belongs in slot j after initialising from a list, if any. */
  function SlotCommand(known: Catalog, cmds: seq<bv8>, j: nat): Option<bv8> {
    if j == 0 then (if CMD_EN4B in cmds then Some(CMD_EN4B) else None)
    else if j == 1 then (if CMD_EX4B in cmds then Some(CMD_EX4B) else None)
    else if j == MAX_CMD_INDEX then (if CMD_WREAR in cmds then Some(CMD_WREAR) else None)
    else if j - 2 < |Dynamic(known, cmds)| then Some(Dynamic(known, cmds)[j - 2])
    else None
  }

  /** Only known commands get a slot. */
  lemma SlotCommandKnown(known: Catalog, cmds: seq<bv8>, j: nat)
    requires SlotCommand(known, cmds, j).Some?
    ensures known(SlotCommand(known, cmds, j).value).Some?
  {
    if j != 0 && j != 1 && j != MAX_CMD_INDEX {
      DynamicKnown(known, cmds, j - 2);
    }
  }

  lemma {:induction false} DynamicKnown(known: Catalog, cmds: seq<bv8>, k: nat)
    requires k < |Dynamic(known, cmds)|
    ensures known(Dynamic(known, cmds)[k]).Some?
    decreases |cmds|
  {
    var init := Dynamic(known, cmds[..|cmds| - 1]);
    if k < |init| {
      DynamicKnown(known, cmds[..|cmds| - 1], k);
    }
  }

  function Filled(known: Catalog, t: Table, cmds: seq<bv8>, flag: bv32): Table {
    seq(SLOTS, j requires 0 <= j < SLOTS => FilledWord(known, SlotCommand(known, cmds, j), flag, t[j]))
  }

  function FilledWord(known: Catalog, c: Option<bv8>, flag: bv32, was: bv32): bv32 {
    if c.Some? && known(c.value).Some? then EnabledValue(known, c.value, flag).value else was
  }

  /** One more command: nowhere if unknown, else its reserved slot or the next one. */
  lemma FilledExtends(known: Catalog, t: Table, cmds: seq<bv8>, flag: bv32, i: nat)
    requires i < |cmds|
    ensures |Dynamic(known, cmds[..i + 1])| ==
      |Dynamic(known, cmds[..i])| + (if known(cmds[i]).Some? && FixedSlot(cmds[i]).None? then 1 else 0)
    ensures Filled(known, t, cmds[..i + 1], flag) ==
      Placed(known, Filled(known, t, cmds[..i], flag), |Dynamic(known, cmds[..i])|, cmds[i], flag)
  {
    DynamicExtends(known, cmds, i);
    forall j | 0 <= j < SLOTS
      ensures SlotCommand(known, cmds[..i + 1], j) ==
        if known(cmds[i]).Some? && j == Place(|Dynamic(known, cmds[..i])|, cmds[i]) then Some(cmds[i])
        else SlotCommand(known, cmds[..i], j)
    {
      SlotCommandExtends(known, cmds, i, j);
    }
    var before, after := Filled(known, t, cmds[..i], flag), Filled(known, t, cmds[..i + 1], flag);
    var place := Place(|Dynamic(known, cmds[..i])|, cmds[i]);
    forall j | 0 <= j < SLOTS
      ensures after[j] ==
        if known(cmds[i]).Some? && j == place then EnabledValue(known, cmds[i], flag).value else before[j]
    {
    }
  }

  lemma DynamicExtends(known: Catalog, cmds: seq<bv8>, i: nat)
    requires i < |cmds|
    ensures Dynamic(known, cmds[..i + 1]) ==
      Dynamic(known, cmds[..i]) + (if known(cmds[i]).Some? && FixedSlot(cmds[i]).None? then [cmds[i]] else [])
  {
    assert cmds[..i + 1][..i] == cmds[..i];
  }

  lemma SlotCommandExtends(known: Catalog, cmds: seq<bv8>, i: nat, j: nat)
    requires i < |cmds| && j < SLOTS
    ensures SlotCommand(known, cmds[..i + 1], j) ==
      if known(cmds[i]).Some? && j == Place(|Dynamic(known, cmds[..i])|, cmds[i]) then Some(cmds[i])
      else SlotCommand(known, cmds[..i], j)
  {
    DynamicExtends(known, cmds, i);
    assert FixedSlot(cmds[i]).Some? ==> known(cmds[i]).Some?;
    assert forall c :: c in cmds[..i + 1] <==> c in cmds[..i] || c == cmds[i] by {
      assert cmds[..i + 1] == cmds[..i] + [cmds[i]];
    }
  }

  /** Where the next command goes when n commands without a reserved slot came before it. */
  function Place(n: nat, cmd: bv8): nat {
    if FixedSlot(cmd).Some? then FixedSlot(cmd).value
    else if n + 2 < MAX_CMD_INDEX then n + 2
    else SLOTS
  }

  function Placed(known: Catalog, t: Table, n: nat, cmd: bv8, flag: bv32): Table {
    if known(cmd).None? || Place(n, cmd) >= SLOTS then t
    else t[Place(n, cmd) := EnabledValue(known, cmd, flag).value]
  }
}
