/** Whole batches of private I3C messages: what the device is sent, what the caller gets back,
  * and what the result says (src/i3c/hardware.rs). */
module I3cBatch {
  import opened Bytes
  import opened I3cFifo

  // ---- what the device is sent

  /** What a device takes for a command: the length that the command tells it. */
  function TakenLen(c: I3cCmd): nat {
    if CmdIsRead(c.cmdLo) then 0 else CmdDataLen(c.cmdHi)
  }

  /** Words taken before command k. */
  function TakenBefore(cmds: seq<I3cCmd>, k: nat): nat
    requires k <= |cmds|
  {
    if k == 0 then 0 else TakenBefore(cmds, k - 1) + Words(TakenLen(cmds[k - 1]))
  }

  /** Taking each write in turn from the FIFO, the device gets message k. */
  predicate Arrives(cmds: seq<I3cCmd>, fifo: seq<nat>, k: nat, m: I3cMsg)
    requires k < |cmds|
  {
    var at, len := TakenBefore(cmds, k), TakenLen(cmds[k]);
    at + Words(len) <= |fifo| && m.buf == Some(Unpack(fifo[at..], len))
  }

  predicate IsWrite(msgs: seq<I3cMsg>, k: nat) {
    k < |msgs| && !msgs[k].isRead
  }

  /** The device gets exactly the messages if and only if every write is shorter than 2^16. */
  lemma MessagesArrive(cmds: seq<I3cCmd>, msgs: seq<I3cMsg>, pos: nat, rest: seq<nat>)
    requires Built(cmds, msgs, pos)
    ensures
      (forall k: nat | IsWrite(msgs, k) :: Arrives(cmds, PackAll(TxPayloads(cmds)) + rest, k, msgs[k]))
      <==> forall k: nat | IsWrite(msgs, k) :: |msgs[k].buf.value| < 0x1_0000
  {
    var fifo := PackAll(TxPayloads(cmds)) + rest;
    forall k: nat | IsWrite(msgs, k) && |msgs[k].buf.value| >= 0x1_0000
      ensures !Arrives(cmds, fifo, k, msgs[k])
    {
      assert Describes(cmds[k], msgs[k], k, |msgs|, pos);
    }
    if forall k: nat | IsWrite(msgs, k) :: |msgs[k].buf.value| < 0x1_0000 {
      forall k: nat | IsWrite(msgs, k)
        ensures Arrives(cmds, fifo, k, msgs[k])
      {
        ShortArrives(cmds, msgs, pos, rest, k);
      }
    }
  }

  lemma ShortArrives(cmds: seq<I3cCmd>, msgs: seq<I3cMsg>, pos: nat, rest: seq<nat>, k: nat)
    requires Built(cmds, msgs, pos) && IsWrite(msgs, k)
    requires forall k: nat | IsWrite(msgs, k) :: |msgs[k].buf.value| < 0x1_0000
    ensures Arrives(cmds, PackAll(TxPayloads(cmds)) + rest, k, msgs[k])
  {
    TakesWhole(cmds, msgs, pos, k);
    TakenIsSent(cmds, msgs, pos, k);
    TxAtBoundary(cmds, rest, k);
    assert Describes(cmds[k], msgs[k], k, |msgs|, pos);
    assert TxPayload(cmds[k]) == msgs[k].buf.value;
  }

  lemma TakesWhole(cmds: seq<I3cCmd>, msgs: seq<I3cMsg>, pos: nat, k: nat)
    requires Built(cmds, msgs, pos) && k < |msgs|
    requires IsWrite(msgs, k) ==> |msgs[k].buf.value| < 0x1_0000
    ensures TakenLen(cmds[k]) == |TxPayload(cmds[k])|
  {
    assert Describes(cmds[k], msgs[k], k, |msgs|, pos);
  }

  lemma TxWordsStep(cmds: seq<I3cCmd>, i: nat)
    requires i < |cmds|
    ensures |PackAll(TxPayloads(cmds[..i + 1]))| == |PackAll(TxPayloads(cmds[..i]))| + Words(|TxPayload(cmds[i])|)
  {
    TxPayloadsStep(cmds, i);
  }

  /** Up to a boundary the device has taken as many words as were sent. */
  lemma {:induction false} TakenIsSent(cmds: seq<I3cCmd>, msgs: seq<I3cMsg>, pos: nat, k: nat)
    requires Built(cmds, msgs, pos) && k <= |msgs|
    requires forall k: nat | IsWrite(msgs, k) :: |msgs[k].buf.value| < 0x1_0000
    ensures TakenBefore(cmds, k) == |PackAll(TxPayloads(cmds[..k]))|
  {
    if k > 0 {
      TakenIsSent(cmds, msgs, pos, k - 1);
      TakesWhole(cmds, msgs, pos, k - 1);
      TxWordsStep(cmds, k - 1);
    } else {
      assert TxPayloads(cmds[..0]) == [];
    }
  }

  // ---- what the caller gets back

  /** How the bus answers the command of message index. */
  datatype Answer = Answer(index: nat, err: nat, data: seq<byte>)

  /** At most one answer to each message, in any order, with no more good data than a read asked
    * for; length and status fit the fields of a response. */
  ghost predicate Answers(msgs: seq<I3cMsg>, answers: seq<Answer>) {
    && (forall k | 0 <= k < |answers| :: Answerable(msgs, answers[k]))
    && (forall j, k | 0 <= j < k < |answers| :: answers[j].index != answers[k].index)
  }

  predicate Answerable(msgs: seq<I3cMsg>, a: Answer) {
    && a.index < |msgs| && a.err < 16 && |a.data| < 0x1_0000
    && (ReadsWell(msgs, a) ==> |a.data| <= |msgs[a.index].buf.value|)
  }

  predicate ReadsWell(msgs: seq<I3cMsg>, a: Answer) {
    a.index < |msgs| && msgs[a.index].isRead && msgs[a.index].buf.Some? && a.err == 0
  }

  /** The response carries the TID of the command it answers. */
  function RespTo(cmds: seq<I3cCmd>, a: Answer): Resp {
    Resp(if a.index < |cmds| then CmdTid(cmds[a.index].cmdLo) else 0, |a.data|, a.err)
  }

  function RespsTo(cmds: seq<I3cCmd>, answers: seq<Answer>): (rs: seq<Resp>)
    ensures |rs| == |answers|
  {
    seq(|answers|, k requires 0 <= k < |answers| => RespTo(cmds, answers[k]))
  }

  function Payloads(answers: seq<Answer>): (ps: seq<seq<byte>>)
    ensures |ps| == |answers|
  {
    seq(|answers|, k requires 0 <= k < |answers| => answers[k].data)
  }

  /** The answers fit, and every read that is answered well gets exactly its own bytes. */
  ghost predicate Delivered(cmds: seq<I3cCmd>, msgs: seq<I3cMsg>, answers: seq<Answer>, rest: seq<nat>)
    requires |cmds| == |msgs|
  {
    var rs, rx := RespsTo(cmds, answers), PackAll(Payloads(answers)) + rest;
    && Fits(cmds, rs) && TotalWords(rs) <= |rx|
    && forall k | 0 <= k < |answers| && ReadsWell(msgs, answers[k]) ::
         GotItsOwn(msgs, answers[k], DeliverAll(cmds, rs, rx))
  }

  predicate GotItsOwn(msgs: seq<I3cMsg>, a: Answer, ds: seq<I3cCmd>) {
    && a.index < |msgs| == |ds| && msgs[a.index].buf.Some? && |a.data| <= |msgs[a.index].buf.value|
    && ds[a.index].rx == Some(a.data + msgs[a.index].buf.value[|a.data|..])
  }

  /** With at most 16 messages every read gets its own bytes. */
  lemma FewMessagesDelivered(cmds: seq<I3cCmd>, msgs: seq<I3cMsg>, pos: nat, answers: seq<Answer>, rest: seq<nat>)
    requires Built(cmds, msgs, pos) && Answers(msgs, answers) && |msgs| <= 16
    ensures Delivered(cmds, msgs, answers, rest)
  {
    var rs, ps := RespsTo(cmds, answers), Payloads(answers);
    forall k | 0 <= k < |rs|
      ensures rs[k].tid == answers[k].index < |cmds| && FitsBuffer(cmds, rs[k])
    {
      OwnTid(cmds, msgs, pos, answers[k]);
    }
    assert Carries(rs, ps);
    PackedWords(rs, ps);
    forall k | 0 <= k < |answers| && ReadsWell(msgs, answers[k])
      ensures GotItsOwn(msgs, answers[k], DeliverAll(cmds, rs, PackAll(ps) + rest))
    {
      assert Describes(cmds[answers[k].index], msgs[answers[k].index], answers[k].index, |msgs|, pos);
      Demultiplexed(cmds, rs, ps, rest, k);
    }
  }

  lemma OwnTid(cmds: seq<I3cCmd>, msgs: seq<I3cMsg>, pos: nat, a: Answer)
    requires Built(cmds, msgs, pos) && |msgs| <= 16 && Answerable(msgs, a)
    ensures RespTo(cmds, a).tid == a.index && FitsBuffer(cmds, RespTo(cmds, a))
  {
    assert Describes(cmds[a.index], msgs[a.index], a.index, |msgs|, pos);
  }

  /** n reads of one byte. */
  function Reads(n: nat): (msgs: seq<I3cMsg>)
    ensures |msgs| == n
  {
    seq(n, _ => I3cMsg(Some([0]), true))
  }

  function ReadCmds(n: nat): (cmds: seq<I3cCmd>)
    ensures |cmds| == n
  {
    seq(n, i requires 0 <= i < n => I3cCmd(CommandLo(i, 0, true, i + 1 == n), CommandHi(1), None, Some([0]), 0, 1, 0))
  }

  lemma ReadsBuilt(n: nat)
    ensures Built(ReadCmds(n), Reads(n), 0)
  {
    forall i | 0 <= i < n
      ensures Describes(ReadCmds(n)[i], Reads(n)[i], i, n, 0)
    {
      CommandLoFields(i, 0, true, i + 1 == n);
      CommandHiField(1);
    }
  }

  /** One byte for message 16. */
  function Stray(): Answer { Answer(16, 0, [1]) }

  /** It comes with TID 0. */
  lemma StrayResponse(n: nat)
    requires n > 16
    ensures RespsTo(ReadCmds(n), [Stray()]) == [Resp(0, 1, 0)]
    ensures Answers(Reads(n), [Stray()])
  {
    CommandLoFields(16, 0, true, 16 + 1 == n);
  }

  /** A single response with TID 0 reaches message 0 and no other. */
  lemma OnlyFirstGetsIt(cmds: seq<I3cCmd>, i: nat, rs: seq<Resp>, ps: seq<seq<byte>>)
    requires 0 < i < |cmds| && |rs| == 1 && rs[0].tid == 0 && rs[0].err == 0
    requires Carries(rs, ps) && cmds[0].rx.Some? && |cmds[0].rx.value| == rs[0].len
    ensures Fits(cmds, rs) && TotalWords(rs) <= |PackAll(ps) + []|
    ensures var ds := DeliverAll(cmds, rs, PackAll(ps) + []); ds[0].rx == Some(ps[0]) && ds[i].rx == cmds[i].rx
  {
    PackedWords(rs, ps);
    Demultiplexed(cmds, rs, ps, [], 0);
    Untouched(cmds, rs, PackAll(ps) + [], i);
    assert ps[0] + cmds[0].rx.value[rs[0].len..] == ps[0];
  }

  /** Message 16 of a longer batch has TID 0: its byte goes to message 0. */
  lemma Misdelivered(n: nat)
    requires n > 16
    ensures Answers(Reads(n), [Stray()]) && !Delivered(ReadCmds(n), Reads(n), [Stray()], [])
    ensures
      var rs, w := RespsTo(ReadCmds(n), [Stray()]), PackAll(Payloads([Stray()])) + [];
      && Fits(ReadCmds(n), rs) && TotalWords(rs) <= |w|
      && DeliverAll(ReadCmds(n), rs, w)[0].rx == Some([1])
  {
    var rs, ps := RespsTo(ReadCmds(n), [Stray()]), Payloads([Stray()]);
    StrayResponse(n);
    OnlyFirstGetsIt(ReadCmds(n), 16, rs, ps);
    NotItsOwn(n, DeliverAll(ReadCmds(n), rs, PackAll(ps) + []));
  }

  lemma NotItsOwn(n: nat, ds: seq<I3cCmd>)
    requires n > 16 && |ds| == n && ds[16].rx == Some([0])
    ensures ReadsWell(Reads(n), [Stray()][0]) && !GotItsOwn(Reads(n), [Stray()][0], ds)
  {
    var byte0: seq<byte> := [0];
    assert ([1] + byte0[1..])[0] != byte0[0];
  }

  /** Every batch of n messages is delivered, whatever the answers and their order. */
  ghost predicate AlwaysDelivered(n: nat) {
    forall cmds, msgs, pos, answers, rest | |msgs| == n && Built(cmds, msgs, pos) && Answers(msgs, answers) ::
      Delivered(cmds, msgs, answers, rest)
  }

  /** Batches of n messages are always delivered exactly if there are at most 16. */
  lemma DeliveredExactly(n: nat)
    ensures AlwaysDelivered(n) <==> n <= 16
  {
    if n <= 16 {
      forall cmds, msgs, pos: nat, answers, rest | |msgs| == n && Built(cmds, msgs, pos) && Answers(msgs, answers)
        ensures Delivered(cmds, msgs, answers, rest)
      {
        FewMessagesDelivered(cmds, msgs, pos, answers, rest);
      }
    } else {
      ReadsBuilt(n);
      Misdelivered(n);
    }
  }

  // ---- data left behind

  /** Every good read of the next transfer gets its own payload, whatever that is, with stale
    * words in front of it in the FIFO. */
  ghost predicate NextIntact(cmds: seq<I3cCmd>, rs: seq<Resp>, stale: seq<nat>, rest: seq<nat>) {
    forall ps, k | Carries(rs, ps) && GoodRead(cmds, rs, k) :: GetsPayload(cmds, rs, ps, stale, rest, k)
  }

  /** Response k brings data for the buffer of a command that is answered once. */
  ghost predicate GoodRead(cmds: seq<I3cCmd>, rs: seq<Resp>, k: nat) {
    && k < |rs| && rs[k].tid < |cmds| && OnlyAnswer(rs, k)
    && rs[k].err == 0 && rs[k].len > 0 && cmds[rs[k].tid].rx.Some?
  }

  ghost predicate GetsPayload(cmds: seq<I3cCmd>, rs: seq<Resp>, ps: seq<seq<byte>>,
                              stale: seq<nat>, rest: seq<nat>, k: nat)
  {
    var rx := stale + (PackAll(ps) + rest);
    && Fits(cmds, rs) && Carries(rs, ps) && GoodRead(cmds, rs, k)
    && TotalWords(rs) <= |rx| && rs[k].len <= |cmds[rs[k].tid].rx.value|
    && DeliverAll(cmds, rs, rx)[rs[k].tid].rx == Some(ps[k] + cmds[rs[k].tid].rx.value[rs[k].len..])
  }

  /** Without a transfer in flight the handler drops responses and leaves their data in the
    * FIFO.  The next transfer that reads anything is then delivered right if and only if no
    * dropped response had data. */
  lemma DroppedExactly(dropped: seq<Resp>, left: seq<seq<byte>>, cmds: seq<I3cCmd>, rs: seq<Resp>,
                       rest: seq<nat>, k: nat)
    requires Carries(dropped, left) && Fits(cmds, rs) && GoodRead(cmds, rs, k)
    ensures NextIntact(cmds, rs, PackAll(left), rest) <==> forall j | 0 <= j < |dropped| :: dropped[j].len == 0
  {
    PackedWords(dropped, left);
    NoWordsIff(dropped);
    var stale := PackAll(left);
    if stale == [] {
      forall ps, j: nat | Carries(rs, ps) && GoodRead(cmds, rs, j)
        ensures GetsPayload(cmds, rs, ps, stale, rest, j)
      {
        assert stale + (PackAll(ps) + rest) == PackAll(ps) + rest;
        Demultiplexed(cmds, rs, ps, rest, j);
        assert FitsBuffer(cmds, rs[j]);
      }
    } else {
      StaleBreaks(cmds, rs, stale, rest, k);
    }
  }

  lemma {:induction false} NoWordsIff(rs: seq<Resp>)
    ensures TotalWords(rs) == 0 <==> forall j | 0 <= j < |rs| :: rs[j].len == 0
  {
    if rs != [] {
      NoWordsIff(rs[..|rs| - 1]);
    }
  }

  /** Payloads of zeros, but for the first byte of payload k. */
  function Marked(rs: seq<Resp>, k: nat, b: byte): (ps: seq<seq<byte>>)
    ensures Carries(rs, ps)
  {
    seq(|rs|, j requires 0 <= j < |rs| =>
      if j == k && rs[j].len > 0 then [b] + Zeros(rs[j].len - 1) else Zeros(rs[j].len))
  }

  /** Where the payload is looked for, there is a word that does not depend on it. */
  lemma StaleBreaks(cmds: seq<I3cCmd>, rs: seq<Resp>, stale: seq<nat>, rest: seq<nat>, k: nat)
    requires Fits(cmds, rs) && GoodRead(cmds, rs, k) && stale != []
    ensures !NextIntact(cmds, rs, stale, rest)
  {
    var ps, qs := Marked(rs, k, 0), Marked(rs, k, 1);
    assert ps[k][0] != qs[k][0];
    if GetsPayload(cmds, rs, ps, stale, rest, k) && GetsPayload(cmds, rs, qs, stale, rest, k) {
      assert ps[..k] == qs[..k];
      FirstByteIs(cmds, rs, ps, stale, rest, k);
      FirstByteIs(cmds, rs, qs, stale, rest, k);
      assert false;
    }
  }

  lemma FirstByteIs(cmds: seq<I3cCmd>, rs: seq<Resp>, ps: seq<seq<byte>>, stale: seq<nat>, rest: seq<nat>, k: nat)
    requires GetsPayload(cmds, rs, ps, stale, rest, k) && stale != []
    ensures TotalWords(rs[..k]) < |stale + PackAll(ps[..k])|
    ensures ps[k][0] == LE((stale + PackAll(ps[..k]))[TotalWords(rs[..k])], 4)[0]
  {
    var rx, t := stale + (PackAll(ps) + rest), TotalWords(rs[..k]);
    AnsweredBy(cmds, rs, rx, k);
    PackedWords(rs[..k], ps[..k]);
    var tail := PackAllPrefix(ps, k);
    assert rx == (stale + PackAll(ps[..k])) + (tail + rest);
    assert rx[t..][0] == (stale + PackAll(ps[..k]))[t];
    FirstOfUnpack(rx[t..], rs[k].len);
    var c := cmds[rs[k].tid].rx.value[rs[k].len..];
    assert (Unpack(rx[t..], rs[k].len) + c)[0] == (ps[k] + c)[0];
  }

  lemma FirstOfUnpack(ws: seq<nat>, n: nat)
    requires 0 < n && Words(n) <= |ws|
    ensures Unpack(ws, n)[0] == LE(ws[0], 4)[0]
  {
  }

  lemma {:induction false} PackAllPrefix(ps: seq<seq<byte>>, k: nat) returns (tail: seq<nat>)
    requires k <= |ps|
    ensures PackAll(ps) == PackAll(ps[..k]) + tail
    decreases |ps|
  {
    if k == |ps| {
      assert ps[..k] == ps;
      tail := [];
    } else {
      var n := |ps| - 1;
      assert ps[..n][..k] == ps[..k];
      var t := PackAllPrefix(ps[..n], k);
      tail := t + Pack(ps[n]);
    }
  }

  // ---- the result of a transfer

  lemma {:induction false} AggregateZero(cmds: seq<I3cCmd>, n: nat)
    requires n <= |cmds|
    ensures Aggregate(cmds, n) == 0 <==> forall i | 0 <= i < n :: cmds[i].ret == 0
  {
    if n > 0 { AggregateZero(cmds, n - 1); }
  }

  /** Fresh commands and responses that fit them. */
  ghost predicate FreshBatch(cmds: seq<I3cCmd>, rs: seq<Resp>, rx: seq<nat>) {
    && Fits(cmds, rs) && TotalWords(rs) <= |rx| && |rs| <= |cmds|
    && forall i | 0 <= i < |cmds| :: cmds[i].ret == 0
  }

  /** The status of the last response that names command i. */
  function LastStatus(rs: seq<Resp>, i: nat, was: int): int {
    if rs == [] then was
    else if rs[|rs| - 1].tid == i then rs[|rs| - 1].err
    else LastStatus(rs[..|rs| - 1], i, was)
  }

  /** A later response overwrites the status of an earlier one. */
  lemma {:induction false} StatusIsLast(cmds: seq<I3cCmd>, rs: seq<Resp>, rx: seq<nat>, i: nat)
    requires Fits(cmds, rs) && TotalWords(rs) <= |rx| && i < |cmds|
    ensures DeliverAll(cmds, rs, rx)[i].ret == LastStatus(rs, i, cmds[i].ret)
  {
    if rs != [] {
      StatusIsLast(cmds, rs[..|rs| - 1], rx, i);
    }
  }

  predicate LastAnswer(rs: seq<Resp>, k: nat)
    requires k < |rs|
  {
    forall j | k < j < |rs| :: rs[j].tid != rs[k].tid
  }

  /** Response k is an error on command i that no later response overwrites. */
  predicate ErrorStays(rs: seq<Resp>, i: nat, k: nat) {
    k < |rs| && rs[k].tid == i && rs[k].err != 0 && LastAnswer(rs, k)
  }

  lemma {:induction false} LastStatusIs(rs: seq<Resp>, i: nat)
    ensures LastStatus(rs, i, 0) != 0 <==> exists k: nat :: ErrorStays(rs, i, k)
  {
    if rs != [] {
      var n := |rs| - 1;
      LastStatusIs(rs[..n], i);
      if rs[n].tid == i {
        assert forall k: nat | ErrorStays(rs, i, k) :: k == n;
        assert rs[n].err != 0 ==> ErrorStays(rs, i, n);
      } else {
        assert forall k: nat :: ErrorStays(rs, i, k) <==> ErrorStays(rs[..n], i, k);
      }
    }
  }

  /** The result loop runs over the first |rs| commands, whichever of them were answered. */
  predicate ErrorCounts(rs: seq<Resp>, k: nat) {
    k < |rs| && rs[k].tid < |rs| && ErrorStays(rs, rs[k].tid, k)
  }

  /** A transfer fails exactly if an error is the last answer to a command among the first
    * as many as there were responses. */
  lemma ErrorsReported(cmds: seq<I3cCmd>, rs: seq<Resp>, rx: seq<nat>)
    requires FreshBatch(cmds, rs, rx)
    ensures Aggregate(DeliverAll(cmds, rs, rx), |rs|) != 0 <==> exists k: nat :: ErrorCounts(rs, k)
  {
    var ds := DeliverAll(cmds, rs, rx);
    AggregateZero(ds, |rs|);
    forall i: nat | i < |rs|
      ensures ds[i].ret != 0 <==> exists k: nat :: ErrorStays(rs, i, k)
    {
      StatusIsLast(cmds, rs, rx, i);
      LastStatusIs(rs, i);
    }
    if k: nat :| ErrorCounts(rs, k) {
      assert ErrorStays(rs, rs[k].tid, k);
      assert ds[rs[k].tid].ret != 0;
    }
    if i: nat :| i < |rs| && ds[i].ret != 0 {
      var k: nat :| ErrorStays(rs, i, k);
      assert ErrorCounts(rs, k);
    }
  }

  /** Some command was answered with an error. */
  ghost predicate AnyError(cmds: seq<I3cCmd>, rs: seq<Resp>) {
    exists k :: 0 <= k < |rs| && rs[k].tid < |cmds| && rs[k].err != 0
  }

  /** All answers are to the first |rs| commands. */
  ghost predicate AnswersInLoop(cmds: seq<I3cCmd>, rs: seq<Resp>) {
    forall k | 0 <= k < |rs| && rs[k].tid < |cmds| :: rs[k].tid < |rs|
  }

  /** No command is answered twice. */
  ghost predicate OneEach(cmds: seq<I3cCmd>, rs: seq<Resp>) {
    forall k | 0 <= k < |rs| && rs[k].tid < |cmds| :: OnlyAnswer(rs, k)
  }

  /** The batch with a bus error on response k and none elsewhere. */
  function OnlyErrorAt(rs: seq<Resp>, k: nat): (es: seq<Resp>)
    ensures |es| == |rs|
  {
    seq(|rs|, j requires 0 <= j < |rs| => rs[j].(err := if j == k then 5 else 0))
  }

  /** A single error is reported as success exactly if it is beyond the loop's range or a later
    * answer names the same command. */
  lemma ErrorMissed(cmds: seq<I3cCmd>, rs: seq<Resp>, rx: seq<nat>, k: nat)
    requires k < |rs| && rs[k].tid < |cmds| && FreshBatch(cmds, OnlyErrorAt(rs, k), rx)
    ensures AnyError(cmds, OnlyErrorAt(rs, k))
    ensures Aggregate(DeliverAll(cmds, OnlyErrorAt(rs, k), rx), |rs|) == 0
      <==> rs[k].tid >= |rs| || !LastAnswer(rs, k)
  {
    var es := OnlyErrorAt(rs, k);
    assert es[k].err != 0 && es[k].tid < |cmds|;
    ErrorsReported(cmds, es, rx);
    assert forall j: nat | ErrorCounts(es, j) :: j == k;
    assert LastAnswer(es, k) <==> LastAnswer(rs, k) by {
      assert forall j | 0 <= j < |rs| :: es[j].tid == rs[j].tid;
    }
    assert ErrorCounts(es, k) <==> rs[k].tid < |rs| && LastAnswer(rs, k);
  }

  /** The same answers, whatever their status. */
  ghost predicate SameAnswers(es: seq<Resp>, rs: seq<Resp>) {
    |es| == |rs| && forall k | 0 <= k < |rs| :: es[k].tid == rs[k].tid && es[k].len == rs[k].len
  }

  ghost predicate Reported(cmds: seq<I3cCmd>, es: seq<Resp>, rx: seq<nat>) {
    FreshBatch(cmds, es, rx) && (Aggregate(DeliverAll(cmds, es, rx), |es|) != 0 <==> AnyError(cmds, es))
  }

  /** For a batch of answers, the transfer's result reflects their statuses, whatever they are,
    * exactly if every known TID is below the number of responses and none is answered twice. */
  lemma ResultExact(cmds: seq<I3cCmd>, rs: seq<Resp>, rx: seq<nat>)
    requires FreshBatch(cmds, rs, rx) && forall k | 0 <= k < |rs| :: rs[k].err == 0
    ensures (forall es | SameAnswers(es, rs) :: Reported(cmds, es, rx))
      <==> AnswersInLoop(cmds, rs) && OneEach(cmds, rs)
  {
    forall es | SameAnswers(es, rs)
      ensures FreshBatch(cmds, es, rx)
      ensures AnswersInLoop(cmds, rs) && OneEach(cmds, rs) ==> Reported(cmds, es, rx)
    {
      SameAnswersFresh(cmds, es, rs, rx);
      if AnswersInLoop(cmds, rs) && OneEach(cmds, rs) {
        AllReported(cmds, es, rs, rx);
      }
    }
    if k :| 0 <= k < |rs| && rs[k].tid < |cmds| && (rs[k].tid >= |rs| || !OnlyAnswer(rs, k)) {
      var l := Overwritten(rs, k);
      assert SameAnswers(OnlyErrorAt(rs, l), rs);
      ErrorMissed(cmds, rs, rx, l);
      assert !Reported(cmds, OnlyErrorAt(rs, l), rx);
    }
  }

  /** The response itself, or one before another with its TID. */
  lemma Overwritten(rs: seq<Resp>, k: nat) returns (l: nat)
    requires k < |rs|
    ensures l < |rs| && rs[l].tid == rs[k].tid
    ensures !OnlyAnswer(rs, k) ==> !LastAnswer(rs, l)
  {
    l := k;
    if !OnlyAnswer(rs, k) {
      var j: nat :| j < |rs| && j != k && rs[j].tid == rs[k].tid;
      l := Min(j, k);
    }
  }

  lemma AllReported(cmds: seq<I3cCmd>, es: seq<Resp>, rs: seq<Resp>, rx: seq<nat>)
    requires FreshBatch(cmds, es, rx) && SameAnswers(es, rs) && AnswersInLoop(cmds, rs) && OneEach(cmds, rs)
    ensures Reported(cmds, es, rx)
  {
    ErrorsReported(cmds, es, rx);
    if k :| 0 <= k < |es| && es[k].tid < |cmds| && es[k].err != 0 {
      assert OnlyAnswer(rs, k);
      assert ErrorCounts(es, k);
    }
  }

  lemma SameAnswersFresh(cmds: seq<I3cCmd>, es: seq<Resp>, rs: seq<Resp>, rx: seq<nat>)
    requires FreshBatch(cmds, rs, rx) && SameAnswers(es, rs) && forall k | 0 <= k < |rs| :: rs[k].err == 0
    ensures FreshBatch(cmds, es, rx)
  {
    SameWords(es, rs);
    forall k | 0 <= k < |es|
      ensures FitsBuffer(cmds, es[k])
    {
      assert FitsBuffer(cmds, rs[k]);
    }
  }

  lemma {:induction false} SameWords(es: seq<Resp>, rs: seq<Resp>)
    requires SameAnswers(es, rs)
    ensures TotalWords(es) == TotalWords(rs)
  {
    if rs != [] {
      SameWords(es[..|rs| - 1], rs[..|rs| - 1]);
    }
  }

  // ---- from response words to the caller

  /** The response words of a batch of answers; each has a byte that is not looked at. */
  function ResponseWords(cmds: seq<I3cCmd>, answers: seq<Answer>, mids: seq<byte>): (ws: seq<nat>)
    requires |mids| == |answers|
    ensures |ws| == |answers|
  {
    seq(|answers|, k requires 0 <= k < |answers| =>
      var r := RespTo(cmds, answers[k]); RespWord(r.tid, mids[k], r.len, r.err))
  }

  lemma WordsDecode(cmds: seq<I3cCmd>, msgs: seq<I3cMsg>, answers: seq<Answer>, mids: seq<byte>)
    requires Answers(msgs, answers) && |mids| == |answers|
    ensures DecodeAll(ResponseWords(cmds, answers, mids)) == RespsTo(cmds, answers)
  {
    var ws, rs := ResponseWords(cmds, answers, mids), RespsTo(cmds, answers);
    forall k | 0 <= k < |answers|
      ensures Decode(ws[k]) == rs[k]
    {
      assert Answerable(msgs, answers[k]);
      var r := RespTo(cmds, answers[k]);
      TidIsSmall(cmds, answers[k]);
      DecodeWord(r.tid, mids[k], r.len, r.err);
    }
  }

  lemma TidIsSmall(cmds: seq<I3cCmd>, a: Answer)
    ensures RespTo(cmds, a).tid < 16
  {
    if a.index < |cmds| {
      FieldPowers();
      FieldIs(cmds[a.index].cmdLo, 6, 3, 8, 16);
    }
  }

  /** There are no more answers than messages. */
  lemma AtMostAsMany(msgs: seq<I3cMsg>, answers: seq<Answer>)
    requires Answers(msgs, answers)
    ensures |answers| <= |msgs|
  {
    IndexesSize(answers, |answers|);
    SubsetSize(Indexes(answers, |answers|), UpTo(|msgs|));
  }

  function UpTo(n: nat): (s: set<nat>)
    ensures |s| == n && forall x: nat :: x in s <==> x < n
  {
    if n == 0 then {} else UpTo(n - 1) + {n - 1}
  }

  /** The messages of the first n answers. */
  function Indexes(answers: seq<Answer>, n: nat): (s: set<nat>)
    requires n <= |answers|
    ensures forall x: nat :: x in s <==> exists k: nat :: k < n && answers[k].index == x
  {
    if n == 0 then {} else Indexes(answers, n - 1) + {answers[n - 1].index}
  }

  lemma {:induction false} IndexesSize(answers: seq<Answer>, n: nat)
    requires n <= |answers|
    requires forall j, k | 0 <= j < k < |answers| :: answers[j].index != answers[k].index
    ensures |Indexes(answers, n)| == n
  {
    if n > 0 { IndexesSize(answers, n - 1); }
  }

  lemma {:induction false} SubsetSize(a: set<nat>, b: set<nat>)
    requires a <= b
    ensures |a| <= |b|
    decreases |a|
  {
    if x :| x in a { SubsetSize(a - {x}, b - {x}); }
  }

  /** The handler's call on the response words and payloads of a batch of at most 16 messages:
    * every read gets exactly the bytes sent for it; if the first messages were answered, the
    * result is an error exactly if an answer was. */
  method EndBatch(hw: I3cHardware, cmds: seq<I3cCmd>, ghost msgs: seq<I3cMsg>, ghost pos: nat,
                  ghost answers: seq<Answer>, ghost mids: seq<byte>, ghost rest: seq<nat>) returns (r: Ended)
    requires Built(cmds, msgs, pos) && Answers(msgs, answers) && |msgs| <= 16 && |mids| == |answers|
    requires hw.responses == ResponseWords(cmds, answers, mids)
    requires hw.rxFifo == PackAll(Payloads(answers)) + rest
    modifies hw
    ensures r.Done? && |r.cmds| == |msgs| && hw.responses == []
    ensures forall k | 0 <= k < |answers| && ReadsWell(msgs, answers[k]) :: GotItsOwn(msgs, answers[k], r.cmds)
    ensures FirstAnswered(msgs, answers) ==> (r.ret != 0 <==> exists k: nat :: Failed(answers, k))
    ensures hw.rxFifo == if r.ret == 0 then rest else []
  {
    WordsDecode(cmds, msgs, answers, mids);
    FewMessagesDelivered(cmds, msgs, pos, answers, rest);
    AtMostAsMany(msgs, answers);
    PayloadsTaken(cmds, answers, rest);
    if FirstAnswered(msgs, answers) {
      FewMessagesReflected(cmds, msgs, pos, answers, rest);
    }
    r := hw.EndXfer(Some(cmds));
  }

  lemma PayloadsTaken(cmds: seq<I3cCmd>, answers: seq<Answer>, rest: seq<nat>)
    ensures
      var n := TotalWords(RespsTo(cmds, answers));
      n == |PackAll(Payloads(answers))| && (PackAll(Payloads(answers)) + rest)[n..] == rest
  {
    assert Carries(RespsTo(cmds, answers), Payloads(answers));
    PackedWords(RespsTo(cmds, answers), Payloads(answers));
  }

  // ---- the result, from messages to the caller

  /** The answers are to the first messages, as many as there are answers. */
  predicate FirstAnswered(msgs: seq<I3cMsg>, answers: seq<Answer>) {
    |answers| <= |msgs| && forall k | 0 <= k < |answers| :: answers[k].index < |answers|
  }

  predicate Failed(answers: seq<Answer>, k: nat) {
    k < |answers| && answers[k].err != 0
  }

  /** The answers fit, and the transfer fails exactly if one of them is an error. */
  ghost predicate Reflected(cmds: seq<I3cCmd>, answers: seq<Answer>, rest: seq<nat>) {
    var rs, rx := RespsTo(cmds, answers), PackAll(Payloads(answers)) + rest;
    && Fits(cmds, rs) && TotalWords(rs) <= |rx| && |rs| <= |cmds|
    && (Aggregate(DeliverAll(cmds, rs, rx), |rs|) != 0 <==> exists k: nat :: Failed(answers, k))
  }

  lemma FewMessagesReflected(cmds: seq<I3cCmd>, msgs: seq<I3cMsg>, pos: nat, answers: seq<Answer>, rest: seq<nat>)
    requires Built(cmds, msgs, pos) && Answers(msgs, answers) && FirstAnswered(msgs, answers) && |msgs| <= 16
    ensures Reflected(cmds, answers, rest)
  {
    var rs, ps := RespsTo(cmds, answers), Payloads(answers);
    forall k | 0 <= k < |rs|
      ensures rs[k].tid == answers[k].index && FitsBuffer(cmds, rs[k])
    {
      OwnTid(cmds, msgs, pos, answers[k]);
    }
    assert Carries(rs, ps);
    PackedWords(rs, ps);
    BuiltFresh(cmds, msgs, pos);
    ErrorsReported(cmds, rs, PackAll(ps) + rest);
    assert forall k: nat :: ErrorCounts(rs, k) <==> Failed(answers, k);
  }

  lemma BuiltFresh(cmds: seq<I3cCmd>, msgs: seq<I3cMsg>, pos: nat)
    requires Built(cmds, msgs, pos)
    ensures forall i | 0 <= i < |cmds| :: cmds[i].ret == 0
  {
    forall i | 0 <= i < |cmds|
      ensures cmds[i].ret == 0
    {
      assert Describes(cmds[i], msgs[i], i, |msgs|, pos);
    }
  }

  /** All n messages are answered in their order, the first with an error. */
  function FirstFails(n: nat): (answers: seq<Answer>)
    ensures |answers| == n
  {
    seq(n, i requires 0 <= i < n => Answer(i, if i == 0 then 5 else 0, []))
  }

  lemma FirstFailsTids(n: nat, k: nat)
    requires k < n
    ensures RespsTo(ReadCmds(n), FirstFails(n))[k] == Resp(k % 16, 0, if k == 0 then 5 else 0)
  {
    CommandLoFields(k, 0, true, k + 1 == n);
  }

  /** In a longer batch, the answer to message 16 hides the error on message 0. */
  lemma ErrorHidden(n: nat)
    requires n > 16
    ensures Answers(Reads(n), FirstFails(n)) && FirstAnswered(Reads(n), FirstFails(n))
    ensures !Reflected(ReadCmds(n), FirstFails(n), [])
    ensures
      var rs, rx := RespsTo(ReadCmds(n), FirstFails(n)), PackAll(Payloads(FirstFails(n))) + [];
      FreshBatch(ReadCmds(n), rs, rx) && Aggregate(DeliverAll(ReadCmds(n), rs, rx), n) == 0
  {
    var rs, ps := RespsTo(ReadCmds(n), FirstFails(n)), Payloads(FirstFails(n));
    forall k | 0 <= k < n
      ensures rs[k] == Resp(k % 16, 0, if k == 0 then 5 else 0) && FitsBuffer(ReadCmds(n), rs[k])
    {
      FirstFailsTids(n, k);
    }
    assert Carries(rs, ps);
    PackedWords(rs, ps);
    ErrorsReported(ReadCmds(n), rs, PackAll(ps) + []);
    assert rs[16].tid == rs[0].tid;
    assert forall k: nat :: !ErrorCounts(rs, k);
    assert Failed(FirstFails(n), 0);
  }

  /** In every batch of n messages the result reflects the answers to the first of them, in any
    * order. */
  ghost predicate AlwaysReflected(n: nat) {
    forall cmds, msgs, pos, answers, rest
      | |msgs| == n && Built(cmds, msgs, pos) && Answers(msgs, answers) && FirstAnswered(msgs, answers) ::
      Reflected(cmds, answers, rest)
  }

  /** It does so exactly if there are at most 16. */
  lemma ReflectedExactly(n: nat)
    ensures AlwaysReflected(n) <==> n <= 16
  {
    if n <= 16 {
      forall cmds, msgs, pos: nat, answers, rest
        | |msgs| == n && Built(cmds, msgs, pos) && Answers(msgs, answers) && FirstAnswered(msgs, answers)
        ensures Reflected(cmds, answers, rest)
      {
        FewMessagesReflected(cmds, msgs, pos, answers, rest);
      }
    } else {
      ReadsBuilt(n);
      ErrorHidden(n);
    }
  }
}
