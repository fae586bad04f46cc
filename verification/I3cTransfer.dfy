/** Hand-over of an I3C transfer between the polling thread and the interrupt handler
  * (src/i3c/hardware.rs).
  *
  * The thread runs one transfer at a time.  Each transfer lives on its stack; the handler
  * reaches it only through the shared pointer `curr_xfer`.  A schedule is any sequence of
  * thread steps and handler runs: the handler may come between any two thread steps, and
  * being an interrupt on a single core it runs to completion. */
module I3cTransfer {
  import opened Bytes

  const TIMEOUT_US: nat := 1_000_000_000
  const RESPONSE_ERROR_IBA_NACK: int := 4

  datatype Op = DoCcc | DoEntdaa | PrivXfer

  datatype Outcome = Success | Invalid | Timeout

  /** The next step of the thread. */
  datatype Pc =
    | Idle
    | SwapIn       // start_xfer: publish the transfer
    | SetRet       // start_xfer: xfer.ret = -1
    | ResetDone    // start_xfer: xfer.done.reset()
    | Issue        // start_xfer: FIFO, threshold and command writes
    | Poll         // wait_for_us: look at the flag
    | EnterHalt
    | ResetQueues
    | ExitHalt
    | SwapOut      // timeout: withdraw the transfer
    | Return       // read xfer.ret and return to the caller

  /** What has happened, by transfer. */
  datatype History = History(
    attached: multiset<nat>,       // published by start_xfer
    detached: multiset<nat>,       // taken out of curr_xfer again
    returned: multiset<nat>,       // whose operation has returned
    delivered: set<(nat, int)>,    // completed by the handler, with the result
    succeeded: set<(nat, Op)>)     // reported as a success

  /** The live transfer, on the thread's stack. */
  datatype Xfer = Xfer(ret: int, done: bool)

  /** The thread. */
  datatype Thread = Thread(pc: Pc, op: Op, live: nat, left: nat, timedOut: bool)

  /** When the handler took the live transfer: not at all, before done.reset() (and then before
    * the result was set to -1, which wipes it, or after), up to the last poll, or after it. */
  datatype Took = Never | Early(wiped: bool) | InTime | Late

  function TookAt(pc: Pc): Took {
    match pc
    case SetRet => Early(true)
    case ResetDone => Early(false)
    case Issue => InTime
    case Poll => InTime
    case _ => Late
  }

  datatype State = State(
    t: Thread,
    x: Xfer,
    curr: Option<nat>,      // config.curr_xfer
    took: Took,             // when the handler took the live transfer
    dangling: bool,         // the handler followed a pointer to a dead transfer
    displaced: bool,        // start_xfer found another transfer in flight
    h: History)

  datatype Choice = Main(op: Op) | Isr(ret: int)

  function Start(): State {
    State(Thread(Idle, DoCcc, 0, 0, false), Xfer(0, false), None, Never, false, false,
          History(multiset{}, multiset{}, multiset{}, {}, {}))
  }

  /** What the operation reports, given the transfer's result. */
  function Report(op: Op, timedOut: bool, ret: int): Outcome {
    match op
    case DoCcc => if ret == RESPONSE_ERROR_IBA_NACK || ret == 0 then Success else Invalid
    case DoEntdaa => if !timedOut && ret == 0 then Success else Invalid
    case PrivXfer => if !timedOut && ret == 0 then Success else Timeout
  }

  /** A thread step that only moves the thread on. */
  function Goto(s: State, pc: Pc): State {
    s.(t := s.t.(pc := pc))
  }

  /** One step of the thread. */
  function MainStep(s: State, op: Op): State {
    match s.t.pc
    case Idle =>
      s.(t := Thread(SwapIn, op, s.t.live + 1, 0, false),
         x := Xfer(if op.DoEntdaa? then -1 else 0, false), took := Never)
    case SwapIn =>
      Goto(s, SetRet).(curr := Some(s.t.live), displaced := s.displaced || s.curr.Some?,
                       h := s.h.(attached := s.h.attached + multiset{s.t.live}))
    case SetRet => Goto(s, ResetDone).(x := s.x.(ret := -1))
    case ResetDone => Goto(s, Issue).(x := s.x.(done := false))
    case Issue => s.(t := s.t.(pc := Poll, left := TIMEOUT_US))
    case Poll =>
      if s.x.done then Goto(s, Return)
      else if s.t.left == 0 then Goto(s, EnterHalt)
      else s.(t := s.t.(left := s.t.left - 1))
    case EnterHalt => Goto(s, ResetQueues)
    case ResetQueues => Goto(s, ExitHalt)
    case ExitHalt => Goto(s, SwapOut)
    case SwapOut =>
      var r := s.(t := s.t.(pc := Return, timedOut := true), curr := None);
      if s.curr.None? then r
      else r.(h := s.h.(detached := s.h.detached + multiset{s.curr.value}))
    case Return =>
      var success := Report(s.t.op, s.t.timedOut, s.x.ret).Success?;
      Goto(s, Idle).(h := s.h.(
        returned := s.h.returned + multiset{s.t.live},
        succeeded := s.h.succeeded + if success then {(s.t.live, s.t.op)} else {}))
  }

  /** end_xfer: take the pointer and complete the transfer.  Without one the responses are
    * dropped, which changes nothing here; what stays in the FIFO is in I3cFifo and I3cBatch. */
  function IsrStep(s: State, ret: int): State {
    if s.curr.None? then s
    else
      var x := s.curr.value;
      var r := s.(curr := None, h := s.h.(
        detached := s.h.detached + multiset{x},
        delivered := s.h.delivered + {(x, ret)}));
      if s.t.pc.Idle? || x != s.t.live then r.(dangling := true)
      else r.(x := Xfer(ret, true), took := TookAt(s.t.pc))
  }

  function Step(s: State, c: Choice): State {
    match c
    case Main(op) => MainStep(s, op)
    case Isr(ret) => IsrStep(s, ret)
  }

  /** The state after a schedule. */
  function Run(s: State, cs: seq<Choice>): State {
    if cs == [] then s else Step(Run(s, cs[..|cs| - 1]), cs[|cs| - 1])
  }

  // ---- the invariant

  /** From publishing the transfer to returning or withdrawing it. */
  predicate Published(pc: Pc) {
    !pc.Idle? && !pc.SwapIn? && !pc.Return?
  }

  /** From clearing the flag on. */
  predicate Armed(pc: Pc) {
    Published(pc) && !pc.SetRet? && !pc.ResetDone?
  }

  predicate PointerInv(s: State) {
    && !s.dangling && !s.displaced
    && (!s.t.pc.Idle? ==> s.t.live > 0)
    && (s.curr.Some? ==> Published(s.t.pc) && s.curr.value == s.t.live && s.took.Never?)
    && (s.t.pc.SwapIn? ==> s.took.Never?)
    && (Published(s.t.pc) && s.curr.None? ==> !s.took.Never?)
    && (s.t.pc.SetRet? || s.t.pc.ResetDone? ==> s.took.Never? || s.took.Early?)
    && (s.t.pc.SetRet? ==> s.took != Early(false))
    && (s.t.pc.Issue? || s.t.pc.Poll? ==> (s.x.done <==> s.took.InTime?) && !s.took.Late?)
    && (Halting(s.t.pc) ==> !s.took.InTime?)
    && (!s.t.pc.Return? && !s.t.pc.Idle? ==> !s.t.timedOut)
    && (s.t.pc.Return? ==> (s.t.timedOut <==> !s.took.InTime?))
  }

  /** Between the last poll and withdrawing the transfer. */
  predicate Halting(pc: Pc) {
    pc.EnterHalt? || pc.ResetQueues? || pc.ExitHalt? || pc.SwapOut?
  }

  predicate CountsOf(s: State, x: nat) {
    && s.h.attached[x] == (if 0 < x <= s.t.live && !(x == s.t.live && s.t.pc.SwapIn?) then 1 else 0)
    && s.h.detached[x] + (if s.curr == Some(x) then 1 else 0) == s.h.attached[x]
    && s.h.returned[x] == (if 0 < x <= s.t.live && !(x == s.t.live && !s.t.pc.Idle?) then 1 else 0)
  }

  ghost predicate Inv(s: State) {
    && PointerInv(s)
    && forall x: nat :: CountsOf(s, x)
  }

  lemma StepKeepsPointerInv(s: State, c: Choice)
    requires PointerInv(s)
    ensures PointerInv(Step(s, c))
  {
  }

  lemma StepKeepsCounts(s: State, c: Choice, x: nat)
    requires PointerInv(s) && CountsOf(s, x)
    ensures CountsOf(Step(s, c), x)
  {
  }

  lemma {:induction false} RunKeepsInv(cs: seq<Choice>)
    ensures Inv(Run(Start(), cs))
  {
    if cs != [] {
      var s, c := Run(Start(), cs[..|cs| - 1]), cs[|cs| - 1];
      RunKeepsInv(cs[..|cs| - 1]);
      StepKeepsPointerInv(s, c);
      forall x: nat
        ensures CountsOf(Step(s, c), x)
      {
        StepKeepsCounts(s, c, x);
      }
    }
  }

  /** Under every schedule: a published transfer belongs to an operation that has not
    * returned; an operation that has returned was attached once and detached once, by the
    * handler or by the timeout; the handler never follows a stale pointer and no transfer
    * displaces another. */
  lemma HandOver(cs: seq<Choice>)
    ensures
      var s := Run(Start(), cs);
      && !s.dangling && !s.displaced
      && (forall x: nat | s.curr == Some(x) ::
           s.h.attached[x] == 1 && s.h.detached[x] == 0 && s.h.returned[x] == 0)
      && (forall x: nat | s.h.returned[x] > 0 ::
           s.h.attached[x] == s.h.detached[x] == s.h.returned[x] == 1)
  {
    RunKeepsInv(cs);
    var s := Run(Start(), cs);
    forall x: nat
      ensures s.curr == Some(x) ==>
        s.h.attached[x] == 1 && s.h.detached[x] == 0 && s.h.returned[x] == 0
      ensures s.h.returned[x] > 0 ==>
        s.h.attached[x] == s.h.detached[x] == s.h.returned[x] == 1
    {
      assert CountsOf(s, x);
    }
  }

  // ---- what an outcome means

  predicate SuccessExplained(h: History, x: nat, op: Op) {
    (x, 0) in h.delivered || (op.DoCcc? && (x, RESPONSE_ERROR_IBA_NACK) in h.delivered)
  }

  /** Once start_xfer has set the result to -1, any other result was delivered. */
  ghost predicate RetInv(s: State) {
    && (Armed(s.t.pc) || s.t.pc.Return? || s.t.pc.ResetDone? ==>
          s.x.ret == -1 || (s.t.live, s.x.ret) in s.h.delivered)
    && (!s.t.pc.Idle? ==> forall r | (s.t.live, r) in s.h.delivered ::
          !s.took.Never? && (s.took != Early(true) ==> r == s.x.ret))
    && (!s.t.pc.Idle? && ResultKept(s.took) ==> (s.t.live, s.x.ret) in s.h.delivered)
    && (Armed(s.t.pc) || s.t.pc.Return? || s.t.pc.ResetDone? ==> ResultKept(s.took) || s.x.ret == -1)
    && (forall x, r | (x, r) in s.h.delivered :: x <= s.t.live)
  }

  /** Successes are explained, and not of an operation that has yet to return. */
  ghost predicate SuccessInv(s: State) {
    forall x, op | (x, op) in s.h.succeeded ::
      SuccessExplained(s.h, x, op) && (x < s.t.live || (x == s.t.live && s.t.pc.Idle?))
  }

  ghost predicate ResultInv(s: State) {
    RetInv(s) && SuccessInv(s)
  }

  /** The delivered result is still there. */
  predicate ResultKept(took: Took) {
    !took.Never? && took != Early(true)
  }

  lemma StepKeepsResultInv(s: State, c: Choice)
    requires PointerInv(s) && ResultInv(s)
    ensures ResultInv(Step(s, c))
  {
    StepKeepsRet(s, c);
    StepKeepsSuccess(s, c);
  }

  lemma StepKeepsRet(s: State, c: Choice)
    requires PointerInv(s) && RetInv(s)
    ensures RetInv(Step(s, c))
  {
  }

  lemma StepKeepsSuccess(s: State, c: Choice)
    requires PointerInv(s) && RetInv(s) && SuccessInv(s)
    ensures SuccessInv(Step(s, c))
  {
    var s1 := Step(s, c);
    forall x, op | (x, op) in s1.h.succeeded
      ensures SuccessExplained(s1.h, x, op) && (x < s1.t.live || (x == s1.t.live && s1.t.pc.Idle?))
    {
      if (x, op) in s.h.succeeded {
        assert SuccessExplained(s.h, x, op);
      }
    }
  }

  lemma {:induction false} RunKeepsResultInv(cs: seq<Choice>)
    ensures ResultInv(Run(Start(), cs))
  {
    if cs != [] {
      RunKeepsInv(cs[..|cs| - 1]);
      RunKeepsResultInv(cs[..|cs| - 1]);
      StepKeepsResultInv(Run(Start(), cs[..|cs| - 1]), cs[|cs| - 1]);
    }
  }

  /** Under every schedule, an operation reports success only for a transfer the handler
    * completed with result 0 (or, for a CCC, an IBA NACK). */
  lemma SuccessWasDelivered(cs: seq<Choice>, x: nat, op: Op)
    requires (x, op) in Run(Start(), cs).h.succeeded
    ensures SuccessExplained(Run(Start(), cs).h, x, op)
  {
    RunKeepsResultInv(cs);
  }

  // ---- completion and progress

  /** While the thread waits, the flag is up exactly when the handler has taken the
    * transfer after done.reset(). */
  lemma CompletionSeen(cs: seq<Choice>)
    requires Run(Start(), cs).t.pc.Poll?
    ensures
      var s := Run(Start(), cs);
      s.x.done <==> s.curr.None? && !s.took.Early?
  {
    RunKeepsInv(cs);
  }

  /** An operation returns without a timeout exactly if the handler took its transfer after
    * done.reset() and before the last poll. */
  lemma TimesOutExactly(cs: seq<Choice>)
    requires Run(Start(), cs).t.pc.Return?
    ensures var s := Run(Start(), cs); !s.t.timedOut <==> s.took.InTime?
  {
    RunKeepsInv(cs);
  }

  /** start_xfer publishes the transfer before it clears the flag, so a completion that
    * comes in between is wiped: the operation waits out the whole timeout, and only a CCC
    * can still report the delivered result. */
  lemma EarlyCompletionTimesOut(cs: seq<Choice>)
    requires Run(Start(), cs).t.pc.Return? && Run(Start(), cs).took.Early?
    ensures
      var s := Run(Start(), cs);
      && s.t.timedOut
      && (!s.t.op.DoCcc? ==> !Report(s.t.op, s.t.timedOut, s.x.ret).Success?)
  {
    RunKeepsInv(cs);
  }

  /** n thread steps. */
  function Steps(n: nat): (cs: seq<Choice>)
    ensures |cs| == n
  {
    seq(n, _ => Main(PrivXfer))
  }

  /** The handler delivers success right after the transfer is published, and then the thread
    * goes on alone. */
  function EarlySchedule(n: nat): seq<Choice> {
    [Main(PrivXfer), Main(PrivXfer), Isr(0)] + Steps(n)
  }

  /** Such a schedule exists: a private transfer completed with success reports a timeout. */
  lemma EarlyCompletionHappens()
    ensures
      var s := Run(Start(), EarlySchedule(1_000_000_008));
      && s.t.pc.Return? && s.took.Early? && (1, 0) in s.h.delivered
      && Report(s.t.op, s.t.timedOut, s.x.ret) == Timeout
  {
    EarlyWait(TIMEOUT_US);
    EarlyGivesUp(TIMEOUT_US + 3);
  }

  /** The thread is at pc with its transfer lost. */
  predicate Lost(s: State, pc: Pc) {
    s.t.pc == pc && !s.x.done && s.x.ret == -1 && EarlyTaken(s)
  }

  function NextHalt(pc: Pc): Pc {
    match pc
    case Poll => EnterHalt
    case EnterHalt => ResetQueues
    case ResetQueues => ExitHalt
    case _ => SwapOut
  }

  /** From the last poll on, one step after the other. */
  lemma EarlyHalts(n: nat, pc: Pc)
    requires pc.Poll? || pc.EnterHalt? || pc.ResetQueues? || pc.ExitHalt?
    requires Lost(Run(Start(), EarlySchedule(n)), pc)
    requires pc.Poll? ==> Run(Start(), EarlySchedule(n)).t.left == 0
    ensures Lost(Run(Start(), EarlySchedule(n + 1)), NextHalt(pc))
  {
    EarlyNext(n);
  }

  lemma EarlyGivesUp(n: nat)
    requires Lost(Run(Start(), EarlySchedule(n)), Poll) && Run(Start(), EarlySchedule(n)).t.left == 0
    ensures
      var s := Run(Start(), EarlySchedule(n + 5));
      && s.t.pc.Return? && s.took.Early? && (1, 0) in s.h.delivered
      && Report(s.t.op, s.t.timedOut, s.x.ret) == Timeout
  {
    EarlyHalts(n, Poll);
    EarlyHalts(n + 1, EnterHalt);
    EarlyHalts(n + 2, ResetQueues);
    EarlyHalts(n + 3, ExitHalt);
    EarlyNext(n + 4);
  }

  lemma EarlyNext(n: nat)
    ensures Run(Start(), EarlySchedule(n + 1)) == MainStep(Run(Start(), EarlySchedule(n)), PrivXfer)
  {
    EarlyGrows(n);
    RunSnoc(Start(), EarlySchedule(n), Main(PrivXfer));
  }

  lemma EarlyGrows(n: nat)
    ensures EarlySchedule(n + 1) == EarlySchedule(n) + [Main(PrivXfer)]
  {
  }

  lemma RunSnoc(s: State, cs: seq<Choice>, c: Choice)
    ensures Run(s, cs + [c]) == Step(Run(s, cs), c)
  {
    assert (cs + [c])[..|cs|] == cs;
  }

  /** What the wait starts from. */
  predicate EarlyTaken(s: State) {
    && s.t.op.PrivXfer? && s.t.live == 1 && !s.t.timedOut && s.curr.None? && s.took.Early?
    && (1, 0) in s.h.delivered
  }

  lemma EarlyPrefix()
    ensures
      var s := Run(Start(), EarlySchedule(3));
      s.t.pc.Poll? && s.t.left == TIMEOUT_US && !s.x.done && s.x.ret == -1 && EarlyTaken(s)
  {
    var c := Main(PrivXfer);
    assert [c, c, Isr(0)] == EarlySchedule(0);
    assert [c, c, Isr(0)][..2] == [c, c] && [c, c][..1] == [c] && [c][..0] == [];
    var s1 := Step(Run(Start(), []), c);
    var s2 := Step(s1, c);
    assert Run(Start(), [c]) == s1 && Run(Start(), [c, c]) == s2;
    assert Run(Start(), EarlySchedule(0)) == Step(s2, Isr(0));
    EarlyNext(0);
    EarlyNext(1);
    EarlyNext(2);
  }

  /** n polls find the flag down. */
  lemma {:induction false} EarlyWait(n: nat)
    requires n <= TIMEOUT_US
    ensures
      var s := Run(Start(), EarlySchedule(n + 3));
      s.t.pc.Poll? && s.t.left == TIMEOUT_US - n && !s.x.done && s.x.ret == -1 && EarlyTaken(s)
  {
    if n == 0 {
      EarlyPrefix();
    } else {
      EarlyWait(n - 1);
      EarlyNext(n + 2);
    }
  }

  /** A private transfer or an address assignment succeeds exactly if the handler took it in
    * time and delivered result 0. */
  lemma SucceedsExactly(cs: seq<Choice>)
    requires Run(Start(), cs).t.pc.Return? && !Run(Start(), cs).t.op.DoCcc?
    ensures
      var s := Run(Start(), cs);
      Report(s.t.op, s.t.timedOut, s.x.ret).Success? <==> s.took.InTime? && (s.t.live, 0) in s.h.delivered
  {
    RunKeepsInv(cs);
    RunKeepsResultInv(cs);
  }

  /** What an operation returns with, on every schedule: with a success exactly if a good result
    * was delivered in time, or, for a CCC, at any time at which it was not wiped again; else
    * with the error of its kind. The thread's step records it. */
  lemma OutcomeExactly(cs: seq<Choice>, next: Op)
    requires Run(Start(), cs).t.pc.Return?
    ensures
      var s := Run(Start(), cs);
      var s1 := Step(s, Main(next));
      && s1.t.pc.Idle? && s1.h.returned[s.t.live] == 1
      && s1.h.succeeded == s.h.succeeded + (if Earned(s) then {(s.t.live, s.t.op)} else {})
      && (s.t.live, s.t.op) !in s.h.succeeded
      && Report(s.t.op, s.t.timedOut, s.x.ret)
        == if Earned(s) then Success else if s.t.op.PrivXfer? then Timeout else Invalid
  {
    RunKeepsInv(cs);
    RunKeepsResultInv(cs);
    assert CountsOf(Run(Start(), cs), Run(Start(), cs).t.live);
  }

  /** What the handler did earns a success. */
  predicate Earned(s: State) {
    match s.t.op
    case DoCcc =>
      s.took != Never && s.took != Early(true)
      && ((s.t.live, 0) in s.h.delivered || (s.t.live, 4) in s.h.delivered)
    case DoEntdaa => s.took == InTime && (s.t.live, 0) in s.h.delivered
    case PrivXfer => s.took == InTime && (s.t.live, 0) in s.h.delivered
  }

  /** So a CCC whose transfer was taken in time or late succeeds exactly with result 0 or an IBA
    * NACK; one that was never taken does not; one that was taken early does if the result came
    * after start_xfer had set it to -1. */
  lemma CccSucceedsExactly(cs: seq<Choice>, next: Op)
    requires Run(Start(), cs).t.pc.Return? && Run(Start(), cs).t.op.DoCcc?
    ensures
      var s := Run(Start(), cs);
      var good := (s.t.live, 0) in s.h.delivered || (s.t.live, 4) in s.h.delivered;
      (s.t.live, DoCcc) in Step(s, Main(next)).h.succeeded <==>
        match s.took
        case Never => false
        case Early(wiped) => !wiped && good
        case InTime => good
        case Late => good
  {
    OutcomeExactly(cs, next);
  }

  /** When the handler takes the live transfer, where the thread stands says how early it is. */
  lemma TookExactly(cs: seq<Choice>, ret: int)
    requires Run(Start(), cs).curr.Some?
    ensures
      var s := Run(Start(), cs);
      var s1 := Step(s, Isr(ret));
      && s1.h.delivered == s.h.delivered + {(s.t.live, ret)} && s1.curr.None?
      && s1.x == Xfer(ret, true) && s1.t == s.t
      && (s1.took.Early? <==> s.t.pc == SetRet || s.t.pc == ResetDone)
      && (s1.took == Early(true) <==> s.t.pc == SetRet)
      && (s1.took == InTime <==> s.t.pc == Issue || s.t.pc == Poll)
      && s1.took != Never
  {
    RunKeepsInv(cs);
  }

  /** Thread steps an operation can still take. */
  function Remaining(s: State): nat {
    match s.t.pc
    case Idle => 0
    case SwapIn => TIMEOUT_US + 10
    case SetRet => TIMEOUT_US + 9
    case ResetDone => TIMEOUT_US + 8
    case Issue => TIMEOUT_US + 7
    case Poll => s.t.left + 6
    case EnterHalt => 5
    case ResetQueues => 4
    case ExitHalt => 3
    case SwapOut => 2
    case Return => 1
  }

  function MainSteps(cs: seq<Choice>): nat {
    if cs == [] then 0 else MainSteps(cs[..|cs| - 1]) + if cs[|cs| - 1].Main? then 1 else 0
  }

  /** The thread alone takes one step after the other. */
  lemma {:induction false} StepsCount(n: nat)
    ensures MainSteps(Steps(n)) == n
  {
    if n > 0 {
      assert Steps(n)[..n - 1] == Steps(n - 1);
      StepsCount(n - 1);
    }
  }

  /** From its start an operation takes at most 1 000 000 010 thread steps. */
  lemma ReturnsInTime(s: State, cs: seq<Choice>)
    requires s.t.pc.SwapIn? && MainSteps(cs) >= 1_000_000_010
    ensures exists k :: 0 <= k <= |cs| && Run(s, cs[..k]).t.pc.Idle?
  {
    OperationReturns(s, cs);
  }

  /** Whatever the handler does in between, an operation returns within its remaining
    * thread steps: at most the timeout plus ten from its start. */
  lemma {:induction false} OperationReturns(s: State, cs: seq<Choice>)
    requires !s.t.pc.Idle? && MainSteps(cs) >= Remaining(s)
    ensures exists k :: 0 <= k <= |cs| && Run(s, cs[..k]).t.pc.Idle?
  {
    if forall k | 0 <= k <= |cs| :: !Run(s, cs[..k]).t.pc.Idle? {
      assert cs[..|cs|] == cs;
      StepsUsed(s, cs);
    }
  }

  lemma {:induction false} StepsUsed(s: State, cs: seq<Choice>)
    requires forall k | 0 <= k <= |cs| :: !Run(s, cs[..k]).t.pc.Idle?
    ensures Remaining(Run(s, cs)) + MainSteps(cs) <= Remaining(s)
  {
    if cs != [] {
      var ds := cs[..|cs| - 1];
      forall k | 0 <= k <= |ds|
        ensures !Run(s, ds[..k]).t.pc.Idle?
      {
        assert ds[..k] == cs[..k];
      }
      StepsUsed(s, ds);
      assert cs[..|ds|] == ds && cs[..|cs|] == cs;
      StepUses(Run(s, ds), cs[|cs| - 1]);
    }
  }

  lemma StepUses(s: State, c: Choice)
    requires !s.t.pc.Idle?
    ensures Remaining(Step(s, c)) + (if c.Main? then 1 else 0) <= Remaining(s)
  {
    if c.Isr? {
      assert Step(s, c).t == s.t;
    } else {
      match s.t.pc
      case SwapIn =>
      case SetRet =>
      case ResetDone =>
      case Issue =>
      case Poll =>
      case EnterHalt =>
      case ResetQueues =>
      case ExitHalt =>
      case SwapOut =>
      case Return =>
    }
  }
}
