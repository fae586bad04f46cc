/** Private I3C transfers: building the command list and sorting out the responses
  * (src/i3c/hardware.rs). */
module I3cFifo {
  import opened Bits
  import opened Bytes
  import opened I3cFields

  // ---- bytes in word FIFOs

  /** Words that hold n bytes. */
  function Words(n: nat): nat { (n + 3) / 4 }

  /** Bytes as little-endian words, the last one filled up with zeros. */
  function Pack(bytes: seq<byte>): (ws: seq<nat>)
    ensures |ws| == Words(|bytes|)
  {
    if bytes == [] then []
    else if |bytes| < 4 then [FromLE(bytes + Zeros(4 - |bytes|))]
    else [FromLE(bytes[..4])] + Pack(bytes[4..])
  }

  /** The first n bytes of little-endian words. */
  function Unpack(ws: seq<nat>, n: nat): (bytes: seq<byte>)
    requires Words(n) <= |ws|
    ensures |bytes| == n
  {
    if n == 0 then []
    else if n < 4 then LE(ws[0], 4)[..n]
    else LE(ws[0], 4) + Unpack(ws[1..], n - 4)
  }

  /** What one side packs, the other side unpacks, whatever follows in the FIFO. */
  lemma {:induction false} UnpackOfPack(bytes: seq<byte>, rest: seq<nat>)
    ensures Unpack(Pack(bytes) + rest, |bytes|) == bytes
  {
    if bytes == [] {
    } else if |bytes| < 4 {
      var four := bytes + Zeros(4 - |bytes|);
      LEOfFromLE(four);
      assert four[..|bytes|] == bytes;
    } else {
      LEOfFromLE(bytes[..4]);
      assert (Pack(bytes) + rest)[1..] == Pack(bytes[4..]) + rest;
      UnpackOfPack(bytes[4..], rest);
      assert bytes[..4] + bytes[4..] == bytes;
    }
  }

  /** Taking one whole word. */
  lemma UnpackStep(out: seq<byte>, ws: seq<nat>, n: nat)
    requires 4 <= n && Words(n) <= |ws|
    ensures Words(n - 4) <= |ws[1..]|
    ensures (out + LE(ws[0], 4)) + Unpack(ws[1..], n - 4) == out + Unpack(ws, n)
  {
  }

  // ---- responses

  datatype Resp = Resp(tid: nat, len: nat, err: nat)

  /** A response word: error in bits 31-28, TID in bits 27-24, length in bits 15-0. */
  function Decode(w: nat): Resp {
    Resp(FieldGet(w, 27, 24), FieldGet(w, 15, 0), FieldGet(w, 31, 28))
  }

  function DecodeAll(ws: seq<nat>): (rs: seq<Resp>)
    ensures |rs| == |ws|
  {
    seq(|ws|, i requires 0 <= i < |ws| => Decode(ws[i]))
  }

  datatype I3cCmd = I3cCmd(
    cmdLo: nat,
    cmdHi: nat,
    tx: Option<seq<byte>>,
    rx: Option<seq<byte>>,
    txLen: nat,
    rxLen: nat,
    ret: int)

  /** Words of RX data that belong to a list of responses. */
  function TotalWords(rs: seq<Resp>): nat {
    if rs == [] then 0 else TotalWords(rs[..|rs| - 1]) + Words(rs[|rs| - 1].len)
  }

  /** The data of a good response fits the buffer it goes to. */
  predicate FitsBuffer(cmds: seq<I3cCmd>, r: Resp) {
    r.tid < |cmds| && r.err == 0 && cmds[r.tid].rx.Some? ==> r.len <= |cmds[r.tid].rx.value|
  }

  predicate Fits(cmds: seq<I3cCmd>, rs: seq<Resp>) {
    forall k | 0 <= k < |rs| :: FitsBuffer(cmds, rs[k])
  }

  /** Buffers are overwritten in place, never resized. */
  predicate SameBuffers(a: seq<I3cCmd>, b: seq<I3cCmd>) {
    |a| == |b| && forall i | 0 <= i < |a| ::
      (a[i].rx.None? <==> b[i].rx.None?) && (a[i].rx.Some? ==> |a[i].rx.value| == |b[i].rx.value|)
  }

  /** The command after response r, whose data is at the head of rx. */
  function Answered(c: I3cCmd, r: Resp, rx: seq<nat>): I3cCmd
    requires Words(r.len) <= |rx|
    requires r.err == 0 && c.rx.Some? ==> r.len <= |c.rx.value|
  {
    var d := c.(rxLen := r.len, ret := r.err);
    if r.err == 0 && c.rx.Some? then d.(rx := Some(Unpack(rx, r.len) + c.rx.value[r.len..])) else d
  }

  function DeliverOne(cmds: seq<I3cCmd>, r: Resp, rx: seq<nat>): (ds: seq<I3cCmd>)
    requires FitsBuffer(cmds, r) && Words(r.len) <= |rx|
    ensures SameBuffers(cmds, ds)
  {
    if r.tid < |cmds| then cmds[r.tid := Answered(cmds[r.tid], r, rx)] else cmds
  }

  /** The commands after a list of responses, taken in order from the FIFO. */
  function DeliverAll(cmds: seq<I3cCmd>, rs: seq<Resp>, rx: seq<nat>): (ds: seq<I3cCmd>)
    requires Fits(cmds, rs) && TotalWords(rs) <= |rx|
    ensures SameBuffers(cmds, ds)
  {
    if rs == [] then cmds
    else
      var init, r := rs[..|rs| - 1], rs[|rs| - 1];
      assert FitsBuffer(cmds, r);
      DeliverOne(DeliverAll(cmds, init, rx), r, rx[TotalWords(init)..])
  }

  /** The result of a transfer: the last non-zero ret among the first n commands. */
  function Aggregate(cmds: seq<I3cCmd>, n: nat): int
    requires n <= |cmds|
  {
    if n == 0 then 0
    else if cmds[n - 1].ret != 0 then cmds[n - 1].ret
    else Aggregate(cmds, n - 1)
  }

  // ---- data to send

  /** What a command sends. */
  function TxPayload(c: I3cCmd): seq<byte> {
    if c.tx.Some? then c.tx.value[..Min(|c.tx.value|, c.txLen)] else []
  }

  function TxPayloads(cmds: seq<I3cCmd>): (ps: seq<seq<byte>>)
    ensures |ps| == |cmds|
  {
    seq(|cmds|, i requires 0 <= i < |cmds| => TxPayload(cmds[i]))
  }

  lemma TxPayloadsStep(cmds: seq<I3cCmd>, i: nat)
    requires i < |cmds|
    ensures PackAll(TxPayloads(cmds[..i + 1])) == PackAll(TxPayloads(cmds[..i])) + Pack(TxPayload(cmds[i]))
  {
    var ps := TxPayloads(cmds[..i + 1]);
    assert ps[..i] == TxPayloads(cmds[..i]) && ps[i] == TxPayload(cmds[i]);
  }

  lemma SentStep(fifo: seq<nat>, cmds: seq<I3cCmd>, i: nat)
    requires i < |cmds|
    ensures (fifo + PackAll(TxPayloads(cmds[..i]))) + Pack(TxPayload(cmds[i]))
      == fifo + PackAll(TxPayloads(cmds[..i + 1]))
  {
    TxPayloadsStep(cmds, i);
    SeqAssoc(fifo, PackAll(TxPayloads(cmds[..i])), Pack(TxPayload(cmds[i])));
  }

  lemma SeqAssoc<T>(a: seq<T>, b: seq<T>, c: seq<T>)
    ensures (a + b) + c == a + (b + c)
  {
  }

  /** The words of each message are at its boundary. */
  lemma TxAtBoundary(cmds: seq<I3cCmd>, rest: seq<nat>, k: nat)
    requires k < |cmds|
    ensures
      var n := |PackAll(TxPayloads(cmds[..k]))|;
      var fifo := PackAll(TxPayloads(cmds)) + rest;
      && n + Words(|TxPayload(cmds[k])|) <= |fifo|
      && Unpack(fifo[n..], |TxPayload(cmds[k])|) == TxPayload(cmds[k])
  {
    var ps := TxPayloads(cmds);
    var rs := seq(|cmds|, i requires 0 <= i < |cmds| => Resp(0, |ps[i]|, 0));
    assert Carries(rs, ps);
    assert ps[..k] == TxPayloads(cmds[..k]);
    PackedWords(rs[..k], ps[..k]);
    PayloadAtHead(rs, ps, rest, k);
  }

  /** How the handler's call ends. */
  datatype Ended = NoTransfer | Panicked | Done(cmds: seq<I3cCmd>, ret: int)

  class I3cHardware {
    var rxFifo: seq<nat>       // RX data port, head first
    var txFifo: seq<nat>       // words written to the TX data port
    var responses: seq<nat>    // response queue port, head first

    constructor ()
      ensures rxFifo == txFifo == responses == []
    {
      rxFifo, txFifo, responses := [], [], [];
    }

    method ReadWord() returns (w: nat)
      requires rxFifo != []
      modifies `rxFifo
      ensures w == old(rxFifo)[0] && rxFifo == old(rxFifo)[1..]
    {
      w := rxFifo[0];
      rxFifo := rxFifo[1..];
    }

    method WrTxFifo(bytes: seq<byte>)
      modifies `txFifo
      ensures txFifo == old(txFifo) + Pack(bytes)
    {
      var i := 0;
      while i + 4 <= |bytes|
        invariant 0 <= i <= |bytes|
        invariant txFifo + Pack(bytes[i..]) == old(txFifo) + Pack(bytes)
      {
        assert bytes[i..][..4] == bytes[i..i + 4] && bytes[i..][4..] == bytes[i + 4..];
        txFifo := txFifo + [FromLE(bytes[i..i + 4])];
        i := i + 4;
      }
      var rem := bytes[i..];
      if rem != [] {
        txFifo := txFifo + [FromLE(rem + Zeros(4 - |rem|))];
      }
    }

    /** The data part of starting a transfer: each command's bytes, from a word boundary. */
    method LoadCommands(cmds: seq<I3cCmd>)
      modifies `txFifo
      ensures txFifo == old(txFifo) + PackAll(TxPayloads(cmds))
    {
      for i := 0 to |cmds|
        invariant txFifo == old(txFifo) + PackAll(TxPayloads(cmds[..i]))
      {
        LoadCommand(cmds[i]);
        SentStep(old(txFifo), cmds, i);
      }
      assert cmds[..|cmds|] == cmds;
    }

    method LoadCommand(cmd: I3cCmd)
      modifies `txFifo
      ensures txFifo == old(txFifo) + Pack(TxPayload(cmd))
    {
      if cmd.tx.Some? {
        var take := Min(|cmd.tx.value|, cmd.txLen);
        if take > 0 {
          WrTxFifo(cmd.tx.value[..take]);
        }
      }
    }

    /** Fill a slice of n bytes, reading whole words. */
    method RdRxFifo(n: nat) returns (out: seq<byte>)
      requires Words(n) <= |rxFifo|
      modifies `rxFifo
      ensures out == Unpack(old(rxFifo), n)
      ensures rxFifo == old(rxFifo)[Words(n)..]
    {
      out := [];
      ghost var was := rxFifo;
      while |out| + 4 <= n
        invariant |out| <= n && |out| % 4 == 0
        invariant rxFifo == was[|out| / 4..]
        invariant Words(n - |out|) <= |rxFifo|
        invariant out + Unpack(rxFifo, n - |out|) == Unpack(was, n)
      {
        UnpackStep(out, rxFifo, n - |out|);
        var val := ReadWord();
        out := out + LE(val, 4);
      }
      if |out| < n {
        var val := ReadWord();
        out := out + LE(val, 4)[..n - |out|];
      }
    }

    method DrainFifo(n: nat)
      requires Words(n) <= |rxFifo|
      modifies `rxFifo
      ensures rxFifo == old(rxFifo)[Words(n)..]
    {
      ghost var was := rxFifo;
      for i := 0 to Words(n)
        invariant rxFifo == was[i..]
      {
        var _ := ReadWord();
      }
    }

    /** The handler's side.  Without a transfer in flight the responses are dropped and their
      * data stays in the FIFO.  Otherwise they are sorted into their commands and give the
      * result of the transfer; an error resets the queues.  An answer beyond its buffer or
      * more responses than commands make the driver panic. */
    method EndXfer(xfer: Option<seq<I3cCmd>>) returns (r: Ended)
      requires xfer.Some? ==> TotalWords(DecodeAll(responses)) <= |rxFifo|
      modifies this
      ensures xfer.None? ==>
        r == NoTransfer && responses == [] && rxFifo == old(rxFifo) && txFifo == old(txFifo)
      ensures xfer.Some? ==> !r.NoTransfer?
      ensures xfer.Some? ==>
        (r.Panicked? <==> !(Fits(xfer.value, old(DecodeAll(responses))) && |old(responses)| <= |xfer.value|))
      ensures r.Done? ==> xfer.Some?
      ensures r.Done? ==>
        && r.cmds == DeliverAll(xfer.value, old(DecodeAll(responses)), old(rxFifo))
        && r.ret == Aggregate(r.cmds, |old(responses)|) && responses == []
        && rxFifo == (if r.ret == 0 then old(rxFifo)[old(TotalWords(DecodeAll(responses)))..] else [])
        && txFifo == (if r.ret == 0 then old(txFifo) else [])
    {
      if xfer.None? {
        responses := [];
        return NoTransfer;
      }
      var nresp := |responses|;
      var cmds := TakeResponses(xfer.value);
      if cmds.None? || nresp > |cmds.value| {
        return Panicked;
      }
      var ret := TransferResult(cmds.value, nresp);
      if ret != 0 {
        rxFifo, txFifo, responses := [], [], [];
      }
      r := Done(cmds.value, ret);
    }

    /** The response loop; None if an answer does not fit its buffer. */
    method TakeResponses(xferCmds: seq<I3cCmd>) returns (done: Option<seq<I3cCmd>>)
      requires TotalWords(DecodeAll(responses)) <= |rxFifo|
      modifies `rxFifo, `responses
      ensures done.Some? <==> Fits(xferCmds, old(DecodeAll(responses)))
      ensures done.Some? ==> done.value == DeliverAll(xferCmds, old(DecodeAll(responses)), old(rxFifo))
      ensures done.Some? ==> responses == [] && rxFifo == old(rxFifo)[old(TotalWords(DecodeAll(responses)))..]
    {
      var nresp := |responses|;
      ghost var rs, rx := DecodeAll(responses), rxFifo;
      var cmds := xferCmds;
      for k := 0 to nresp
        invariant responses == old(responses)[k..]
        invariant TotalWords(rs[..k]) <= TotalWords(rs) && Fits(xferCmds, rs[..k])
        invariant rxFifo == rx[TotalWords(rs[..k])..]
        invariant cmds == DeliverAll(xferCmds, rs[..k], rx)
      {
        WordsStep(rs, k);
        var resp := responses[0];
        responses := responses[1..];
        assert FitsBuffer(cmds, rs[k]) <==> FitsBuffer(xferCmds, rs[k]);
        if !FitsBuffer(cmds, Decode(resp)) {
          return None;
        }
        FitsStep(xferCmds, rs, k);
        cmds := HandleResponse(cmds, Decode(resp));
      }
      assert rs[..nresp] == rs;
      done := Some(cmds);
    }

    /** One round of the response loop. */
    method HandleResponse(cmds: seq<I3cCmd>, r: Resp) returns (ds: seq<I3cCmd>)
      requires FitsBuffer(cmds, r) && Words(r.len) <= |rxFifo|
      modifies `rxFifo
      ensures ds == DeliverOne(cmds, r, old(rxFifo))
      ensures rxFifo == old(rxFifo)[Words(r.len)..]
    {
      ds := cmds;
      if r.tid >= |cmds| {
        if r.len > 0 {
          DrainFifo(r.len);
        }
        return;
      }
      var cmd := cmds[r.tid].(rxLen := r.len, ret := r.err);
      if r.len == 0 {
        ghost var c := cmds[r.tid];
        assert c.rx.Some? ==> Unpack(rxFifo, 0) + c.rx.value[0..] == c.rx.value;
      } else if r.err == 0 {
        if cmd.rx.Some? {
          var data := RdRxFifo(r.len);
          cmd := cmd.(rx := Some(data + cmd.rx.value[r.len..]));
        } else {
          DrainFifo(r.len);
        }
      } else {
        DrainFifo(r.len);
      }
      ds := cmds[r.tid := cmd];
    }
  }

  method TransferResult(cmds: seq<I3cCmd>, nresp: nat) returns (ret: int)
    requires nresp <= |cmds|
    ensures ret == Aggregate(cmds, nresp)
  {
    ret := 0;
    for i := 0 to nresp
      invariant ret == Aggregate(cmds, i)
    {
      var r := cmds[i].ret;
      if r != 0 {
        ret := r;
      }
    }
  }

  /** One more response: its words come next. */
  lemma WordsStep(rs: seq<Resp>, k: nat)
    requires k < |rs|
    ensures rs[..k + 1][..k] == rs[..k] && rs[..k + 1][k] == rs[k]
    ensures TotalWords(rs[..k + 1]) == TotalWords(rs[..k]) + Words(rs[k].len)
    ensures TotalWords(rs[..k + 1]) <= TotalWords(rs)
  {
    assert rs[..k + 1][..k] == rs[..k];
    TotalWordsPrefix(rs, k + 1);
  }

  lemma FitsStep(cmds: seq<I3cCmd>, rs: seq<Resp>, k: nat)
    requires k < |rs| && Fits(cmds, rs[..k]) && FitsBuffer(cmds, rs[k])
    ensures Fits(cmds, rs[..k + 1])
  {
  }

  /** If all responses fit, each of them does. */
  lemma ResponseStep(cmds: seq<I3cCmd>, rs: seq<Resp>, k: nat)
    requires k < |rs| && Fits(cmds, rs)
    ensures rs[..k + 1][..k] == rs[..k] && rs[..k + 1][k] == rs[k]
    ensures Fits(cmds, rs[..k]) && Fits(cmds, rs[..k + 1]) && FitsBuffer(cmds, rs[k])
    ensures TotalWords(rs[..k + 1]) == TotalWords(rs[..k]) + Words(rs[k].len)
    ensures TotalWords(rs[..k + 1]) <= TotalWords(rs)
  {
    WordsStep(rs, k);
  }

  lemma {:induction false} TotalWordsPrefix(rs: seq<Resp>, k: nat)
    requires k <= |rs|
    ensures TotalWords(rs[..k]) <= TotalWords(rs)
    decreases |rs| - k
  {
    if k < |rs| {
      assert rs[..k + 1][..k] == rs[..k];
      TotalWordsPrefix(rs, k + 1);
    } else {
      assert rs[..k] == rs;
    }
  }

  // ---- demultiplexing

  /** The FIFO holds the payloads of the responses, each from a word boundary. */
  function PackAll(payloads: seq<seq<byte>>): seq<nat> {
    if payloads == [] then [] else PackAll(payloads[..|payloads| - 1]) + Pack(payloads[|payloads| - 1])
  }

  ghost predicate Carries(rs: seq<Resp>, payloads: seq<seq<byte>>) {
    |rs| == |payloads| && forall k | 0 <= k < |rs| :: |payloads[k]| == rs[k].len
  }

  lemma {:induction false} PackedWords(rs: seq<Resp>, payloads: seq<seq<byte>>)
    requires Carries(rs, payloads)
    ensures |PackAll(payloads)| == TotalWords(rs)
  {
    if rs != [] {
      PackedWords(rs[..|rs| - 1], payloads[..|rs| - 1]);
    }
  }

  /** After k responses the FIFO head is at payload k. */
  lemma {:induction false} PayloadAtHead(rs: seq<Resp>, payloads: seq<seq<byte>>, rest: seq<nat>, k: nat)
    requires Carries(rs, payloads) && k < |rs|
    ensures TotalWords(rs[..k]) + Words(rs[k].len) <= |PackAll(payloads) + rest|
    ensures Unpack((PackAll(payloads) + rest)[TotalWords(rs[..k])..], rs[k].len) == payloads[k]
    decreases |rs|
  {
    var n := |rs| - 1;
    var init, last := PackAll(payloads[..n]), Pack(payloads[n]);
    PackedWords(rs[..n], payloads[..n]);
    if k == n {
      assert (PackAll(payloads) + rest)[|init|..] == last + rest;
      UnpackOfPack(payloads[n], rest);
    } else {
      assert rs[..n][..k] == rs[..k];
      assert PackAll(payloads) + rest == init + (last + rest);
      PayloadAtHead(rs[..n], payloads[..n], last + rest, k);
    }
  }

  /** A command no response names is left alone. */
  lemma {:induction false} Untouched(cmds: seq<I3cCmd>, rs: seq<Resp>, rx: seq<nat>, i: nat)
    requires Fits(cmds, rs) && TotalWords(rs) <= |rx| && i < |cmds|
    requires forall k | 0 <= k < |rs| :: rs[k].tid != i
    ensures DeliverAll(cmds, rs, rx)[i] == cmds[i]
  {
    if rs != [] {
      Untouched(cmds, rs[..|rs| - 1], rx, i);
    }
  }

  /** Response k is the only one with its TID. */
  ghost predicate OnlyAnswer(rs: seq<Resp>, k: nat)
    requires k < |rs|
  {
    forall j | 0 <= j < |rs| && j != k :: rs[j].tid != rs[k].tid
  }

  lemma {:induction false} AnsweredBy(cmds: seq<I3cCmd>, rs: seq<Resp>, rx: seq<nat>, k: nat)
    requires Fits(cmds, rs) && TotalWords(rs) <= |rx|
    requires k < |rs| && rs[k].tid < |cmds| && OnlyAnswer(rs, k)
    ensures TotalWords(rs[..k]) + Words(rs[k].len) <= |rx| && FitsBuffer(cmds, rs[k])
    ensures DeliverAll(cmds, rs, rx)[rs[k].tid]
      == Answered(cmds[rs[k].tid], rs[k], rx[TotalWords(rs[..k])..])
    decreases |rs|
  {
    ResponseStep(cmds, rs, k);
    var n := |rs| - 1;
    if k == n {
      Untouched(cmds, rs[..n], rx, rs[k].tid);
    } else {
      ResponseStep(cmds, rs, n);
      assert rs[..n + 1] == rs && rs[..n][..k] == rs[..k];
      AnsweredBy(cmds, rs[..n], rx, k);
    }
  }

  /** Responses may come in any order, fail, or name no command: a command that is answered
    * once gets its own length and status, and on success exactly its own payload; the
    * FIFO is left right behind the last payload. */
  lemma Demultiplexed(cmds: seq<I3cCmd>, rs: seq<Resp>, payloads: seq<seq<byte>>, rest: seq<nat>, k: nat)
    requires Fits(cmds, rs) && Carries(rs, payloads)
    requires k < |rs| && rs[k].tid < |cmds| && OnlyAnswer(rs, k)
    ensures TotalWords(rs) == |PackAll(payloads)|
    ensures (PackAll(payloads) + rest)[TotalWords(rs)..] == rest
    ensures
      var c := cmds[rs[k].tid];
      var d := DeliverAll(cmds, rs, PackAll(payloads) + rest)[rs[k].tid];
      && d.rxLen == rs[k].len && d.ret == rs[k].err
      && d.rx == if rs[k].err == 0 && c.rx.Some? then Some(payloads[k] + c.rx.value[rs[k].len..]) else c.rx
  {
    PackedWords(rs, payloads);
    var rx := PackAll(payloads) + rest;
    AnsweredBy(cmds, rs, rx, k);
    PayloadAtHead(rs, payloads, rest, k);
  }

  // ---- response words

  /** A response word: status, TID, eight bits that are not looked at, and length. */
  function RespWord(tid: nat, mid: nat, len: nat, err: nat): nat {
    err * 0x1000_0000 + tid * 0x100_0000 + mid * 0x1_0000 + len
  }

  /** The handler takes each field from its own bits. */
  lemma DecodeWord(tid: nat, mid: nat, len: nat, err: nat)
    requires tid < 16 && mid < 256 && len < 0x1_0000 && err < 16
    ensures Decode(RespWord(tid, mid, len, err)) == Resp(tid, len, err)
  {
    var w := RespWord(tid, mid, len, err);
    FieldPowers();
    Pow2Values();
    FieldIs(w, 31, 28, 0x1000_0000, 16);
    DivModUnique(w, 0x1000_0000, err, tid * 0x100_0000 + mid * 0x1_0000 + len);
    DivModUnique(err, 16, 0, err);
    FieldIs(w, 27, 24, 0x100_0000, 16);
    DivModUnique(w, 0x100_0000, err * 16 + tid, mid * 0x1_0000 + len);
    DivModUnique(err * 16 + tid, 16, err, tid);
    FieldIs(w, 15, 0, 1, 0x1_0000);
    DivModUnique(w, 0x1_0000, err * 0x1000 + tid * 0x100 + mid, len);
  }

  // ---- the command list

  datatype I3cMsg = I3cMsg(buf: Option<seq<byte>>, isRead: bool)

  const COMMAND_PORT_ROC: nat := 0x400_0000
  const COMMAND_PORT_READ_TRANSFER: nat := 0x1000_0000
  const COMMAND_PORT_TOC: nat := 0x4000_0000
  const COMMAND_ATTR_XFER_ARG: nat := 1

  function CmdTid(lo: nat): nat { FieldGet(lo, 6, 3) }

  function CmdDevIndex(lo: nat): nat { FieldGet(lo, 20, 16) }

  function CmdIsRead(lo: nat): bool { FieldGet(lo, 28, 28) == 1 }

  function CmdStops(lo: nat): bool { FieldGet(lo, 30, 30) == 1 }

  function CmdResponds(lo: nat): bool { FieldGet(lo, 26, 26) == 1 }

  function CmdAttr(word: nat): nat { FieldGet(word, 2, 0) }

  function CmdDataLen(hi: nat): nat { FieldGet(hi, 31, 16) }

  /** The low command word: TID and device index, reading and stopping. */
  function CommandLo(i: nat, pos: nat, isRead: bool, isLast: bool): nat {
    AddFlags(Or(FieldPrep(6, 3, i), FieldPrep(20, 16, pos)), isRead, isLast)
  }

  function AddFlags(fields: nat, isRead: bool, isLast: bool): nat {
    var base := Or(fields, COMMAND_PORT_ROC);
    var lo := if isRead then Or(base, COMMAND_PORT_READ_TRANSFER) else base;
    if isLast then Or(lo, COMMAND_PORT_TOC) else lo
  }

  function CommandHi(len: nat): nat {
    Or(FieldPrep(2, 0, COMMAND_ATTR_XFER_ARG), FieldPrep(31, 16, len))
  }

  /** The flags of a command word above its two fields. */
  function Flags(isRead: bool, isLast: bool): nat {
    1 + (if isRead then 4 else 0) + (if isLast then 16 else 0)
  }

  lemma CommandLoIs(i: nat, pos: nat, isRead: bool, isLast: bool)
    ensures CommandLo(i, pos, isRead, isLast)
      == 8 * (i % 16) + 0x1_0000 * (pos % 32) + COMMAND_PORT_ROC * Flags(isRead, isLast)
  {
    CommandFields(i, pos);
    WithFlags(8 * (i % 16) + 0x1_0000 * (pos % 32), isRead, isLast);
  }

  lemma CommandFields(i: nat, pos: nat)
    ensures Or(FieldPrep(6, 3, i), FieldPrep(20, 16, pos)) == 8 * (i % 16) + 0x1_0000 * (pos % 32)
  {
    FieldPowers();
    PrepIs(6, 3, i, 8, 16);
    PrepIs(20, 16, pos, 0x1_0000, 32);
    TwoFields(i % 16 * 8, pos % 32);
  }

  /** Writing a field, in arithmetic. */
  lemma PrepIs(h: nat, l: nat, val: nat, p: nat, w: nat)
    requires l <= h < 32 && p == Pow2(l) && w == Pow2(h - l + 1)
    ensures FieldPrep(h, l, val) == val % w * p
  {
    FieldPrepIs(h, l, val);
    ShlIsMul(val % w, l);
  }

  /** A field from bit 16 up and one below it do not overlap. */
  lemma TwoFields(low: nat, high: nat)
    requires low < 0x1_0000
    ensures Or(low, high * 0x1_0000) == low + high * 0x1_0000
  {
    FieldPowers();
    ModMultiple(high, 0x1_0000);
    OrDisjoint(high * 0x1_0000, low, 16);
  }

  lemma WithFlags(fields: nat, isRead: bool, isLast: bool)
    requires fields < COMMAND_PORT_ROC
    ensures AddFlags(fields, isRead, isLast) == fields + COMMAND_PORT_ROC * Flags(isRead, isLast)
  {
    FieldPowers();
    OrDisjoint(COMMAND_PORT_ROC, fields, 26);
    var base := fields + COMMAND_PORT_ROC;
    OrDisjoint(COMMAND_PORT_READ_TRANSFER, base, 28);
    var lo := if isRead then base + COMMAND_PORT_READ_TRANSFER else base;
    OrDisjoint(COMMAND_PORT_TOC, lo, 30);
  }

  lemma FieldPowers()
    ensures Pow2(1) == 2 && Pow2(3) == 8 && Pow2(4) == 16 && Pow2(5) == 32 && Pow2(16) == 0x1_0000
    ensures Pow2(26) == 0x400_0000 && Pow2(28) == 0x1000_0000 && Pow2(30) == 0x4000_0000
  {
    Pow2Values();
    Pow2Add(24, 2);
    Pow2Add(24, 4);
    Pow2Add(28, 2);
  }

  /** Reading a field, in arithmetic. */
  lemma FieldIs(n: nat, h: nat, l: nat, p: nat, w: nat)
    requires l <= h < 32 && p == Pow2(l) && w == Pow2(h - l + 1)
    ensures FieldGet(n, h, l) == n / p % w
  {
    FieldGetIs(n, h, l);
    ShrIsDiv(n, l);
  }

  /** The fields of a low command word are what it was made from. */
  lemma CommandLoFields(i: nat, pos: nat, isRead: bool, isLast: bool)
    ensures LowWord(CommandLo(i, pos, isRead, isLast), i, pos, isRead, isLast)
  {
    var lo := CommandLo(i, pos, isRead, isLast);
    CommandLoIs(i, pos, isRead, isLast);
    FieldPowers();
    FieldIs(lo, 6, 3, 8, 16);
    FieldIs(lo, 20, 16, 0x1_0000, 32);
    FieldIs(lo, 28, 28, 0x1000_0000, 2);
    FieldIs(lo, 30, 30, 0x4000_0000, 2);
    LowWordParts(i % 16, pos % 32, isRead, isLast, lo);
  }

  lemma CommandLoFlags(i: nat, pos: nat, isRead: bool, isLast: bool)
    ensures CmdResponds(CommandLo(i, pos, isRead, isLast)) && CmdAttr(CommandLo(i, pos, isRead, isLast)) == 0
  {
    var lo := CommandLo(i, pos, isRead, isLast);
    CommandLoIs(i, pos, isRead, isLast);
    FieldPowers();
    FieldIs(lo, 26, 26, 0x400_0000, 2);
    FieldIs(lo, 2, 0, 1, 8);
    LowWordParts(i % 16, pos % 32, isRead, isLast, lo);
  }

  lemma LowWordParts(tid: nat, dev: nat, isRead: bool, isLast: bool, lo: nat)
    requires tid < 16 && dev < 32
    requires lo == 8 * tid + 0x1_0000 * dev + COMMAND_PORT_ROC * Flags(isRead, isLast)
    ensures lo / 8 % 16 == tid && lo / 0x1_0000 % 32 == dev
    ensures (lo / 0x1000_0000 % 2 == 1 <==> isRead) && (lo / 0x4000_0000 % 2 == 1 <==> isLast)
    ensures lo / 0x400_0000 % 2 == 1 && lo % 8 == 0
  {
    var flags, fields := Flags(isRead, isLast), 8 * tid + 0x1_0000 * dev;
    DivModUnique(lo, 8, tid + 0x2000 * dev + 0x80_0000 * flags, 0);
    DivModUnique(tid + 0x2000 * dev + 0x80_0000 * flags, 16, 0x200 * dev + 0x8_0000 * flags, tid);
    DivModUnique(lo, 0x1_0000, dev + 0x400 * flags, 8 * tid);
    DivModUnique(dev + 0x400 * flags, 32, 0x20 * flags, dev);
    var read, last := if isRead then 1 else 0, if isLast then 1 else 0;
    DivModUnique(lo, 0x400_0000, flags, fields);
    DivModUnique(lo, 0x1000_0000, read + 4 * last, fields + COMMAND_PORT_ROC);
    DivModUnique(lo, 0x4000_0000, last, fields + COMMAND_PORT_ROC + COMMAND_PORT_READ_TRANSFER * read);
  }

  lemma CommandHiField(len: nat)
    ensures CmdDataLen(CommandHi(len)) == len % 0x1_0000
  {
    var n := len % 0x1_0000;
    FieldPowers();
    PrepIs(2, 0, COMMAND_ATTR_XFER_ARG, 1, 8);
    PrepIs(31, 16, len, 0x1_0000, 0x1_0000);
    TwoFields(1, n);
    FieldIs(1 + n * 0x1_0000, 31, 16, 0x1_0000, 0x1_0000);
    DivModUnique(1 + n * 0x1_0000, 0x1_0000, n, 1);
    DivModUnique(n, 0x1_0000, 0, n);
  }

  lemma CommandHiAttr(len: nat)
    ensures CmdAttr(CommandHi(len)) == 1
  {
    var n := len % 0x1_0000;
    FieldPowers();
    PrepIs(2, 0, COMMAND_ATTR_XFER_ARG, 1, 8);
    PrepIs(31, 16, len, 0x1_0000, 0x1_0000);
    TwoFields(1, n);
    FieldIs(1 + n * 0x1_0000, 2, 0, 1, 8);
    DivModUnique(1 + n * 0x1_0000, 8, n * 0x2000, 1);
  }

  /** A message with data whose length is a 32-bit number. */
  predicate Sendable(m: I3cMsg) {
    m.buf.Some? && 0 < |m.buf.value| < 0x1_0000_0000
  }

  /** The fields of the low command word. */
  predicate LowWord(lo: nat, i: nat, pos: nat, isRead: bool, isLast: bool) {
    && CmdTid(lo) == i % 16 && CmdDevIndex(lo) == pos % 32
    && (CmdIsRead(lo) <==> isRead) && (CmdStops(lo) <==> isLast)
  }

  /** A transfer command that asks for a response, and its argument. */
  predicate IsTransfer(c: I3cCmd) {
    CmdResponds(c.cmdLo) && CmdAttr(c.cmdLo) == 0 && CmdAttr(c.cmdHi) == 1
  }

  /** What the bus sees of a command: its fields, the data length as far as 16 bits go, and the
    * buffer on its side. */
  predicate Describes(c: I3cCmd, m: I3cMsg, i: nat, n: nat, pos: nat) {
    && Sendable(m)
    && LowWord(c.cmdLo, i, pos, m.isRead, i + 1 == n)
    && CmdDataLen(c.cmdHi) == |m.buf.value| % 0x1_0000
    && (if m.isRead then c.rx == m.buf && c.tx == None && c.rxLen == |m.buf.value|
        else c.tx == m.buf && c.rx == None && c.txLen == |m.buf.value|)
    && c.ret == 0
  }

  /** The commands describe the messages, one for one. */
  predicate Built(cmds: seq<I3cCmd>, msgs: seq<I3cMsg>, pos: nat) {
    |cmds| == |msgs| && forall i | 0 <= i < |msgs| :: Describes(cmds[i], msgs[i], i, |msgs|, pos)
  }

  /** Build one command per message; fails on a message without data. */
  method PrivXferBuildCmds(count: nat, msgs: seq<I3cMsg>, pos: nat) returns (ok: bool, cmds: seq<I3cCmd>)
    ensures ok <==> count == |msgs| && forall i | 0 <= i < |msgs| :: Sendable(msgs[i])
    ensures ok ==> Built(cmds, msgs, pos) && forall i | 0 <= i < |cmds| :: IsTransfer(cmds[i])
  {
    cmds := [];
    if count != |msgs| {
      return false, cmds;
    }
    for i := 0 to count
      invariant |cmds| == i
      invariant forall j | 0 <= j < i :: Describes(cmds[j], msgs[j], j, count, pos) && IsTransfer(cmds[j])
    {
      var m := msgs[i];
      if m.buf.None? || m.buf.value == [] || |m.buf.value| >= 0x1_0000_0000 {
        assert !Sendable(msgs[i]);
        return false, cmds;
      }
      var cmd := BuildCmd(i, count, m, pos);
      cmds := cmds + [cmd];
    }
    ok := true;
  }

  method BuildCmd(i: nat, n: nat, m: I3cMsg, pos: nat) returns (cmd: I3cCmd)
    requires Sendable(m)
    ensures Describes(cmd, m, i, n, pos) && IsTransfer(cmd)
  {
    var len := |m.buf.value|;
    CommandHiField(len);
    CommandHiAttr(len);
    CommandLoFields(i, pos, m.isRead, i + 1 == n);
    CommandLoFlags(i, pos, m.isRead, i + 1 == n);
    cmd := I3cCmd(CommandLo(i, pos, m.isRead, i + 1 == n), CommandHi(len), None, None, 0, 0, 0);
    if m.isRead {
      cmd := cmd.(rx := m.buf, rxLen := len);
    } else {
      cmd := cmd.(tx := m.buf, txLen := len);
    }
  }
}
