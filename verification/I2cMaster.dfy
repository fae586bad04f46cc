/** Master transfers in byte, buffer and DMA mode (src/i2c_core/master.rs,
  * src/i2c_core/transfer.rs). */
module I2cMaster {
  import opened Bytes
  import opened I2cBus

  const BUFFER_MODE_SIZE: nat := 32
  const DMA_MODE_MAX_SIZE: nat := 4096

  datatype XferMode = ByteMode | BufferMode | DmaMode

  datatype Outcome = Ok | Err(error: I2cError)

  // ---- what a transfer should look like on the bus

  /** One START with the address, all bytes in order, one STOP. */
  function WriteTrace(addr: bv8, bytes: seq<bv8>): seq<Event> {
    [Start(addr & 0x7F, false)] + SentAll(bytes) + [Stop]
  }

  /** One START with the address, all bytes acknowledged but the last, one STOP. */
  function ReadTrace(addr: bv8, data: seq<bv8>): seq<Event> {
    [Start(addr & 0x7F, true)] + ReceivedAll(data, true) + [Stop]
  }

  /** Position by position, what a write and a read look like. */
  lemma WriteTraceIs(addr: bv8, bytes: seq<bv8>)
    ensures
      var t := WriteTrace(addr, bytes);
      && |t| == |bytes| + 2 && t[0] == Start(addr & 0x7F, false) && t[|bytes| + 1] == Stop
      && forall k | 0 <= k < |bytes| :: t[k + 1] == Sent(bytes[k])
  {
  }

  lemma ReadTraceIs(addr: bv8, data: seq<bv8>)
    ensures
      var t := ReadTrace(addr, data);
      && |t| == |data| + 2 && t[0] == Start(addr & 0x7F, true) && t[|data| + 1] == Stop
      && (forall k | 0 <= k < |data| - 1 :: t[k + 1] == Received(data[k], true))
      && (data != [] ==> t[|data|] == Received(data[|data| - 1], false))
  {
  }

  /** The part of a write that has happened after k bytes. */
  function WrittenUpTo(addr: bv8, bytes: seq<bv8>, k: nat): seq<Event>
    requires k <= |bytes|
  {
    if k == 0 then []
    else [Start(addr & 0x7F, false)] + SentAll(bytes[..k]) + (if k == |bytes| then [Stop] else [])
  }

  function ReadUpTo(addr: bv8, data: seq<bv8>, k: nat): seq<Event>
    requires k <= |data|
  {
    if k == 0 then []
    else [Start(addr & 0x7F, true)] + ReceivedAll(data[..k], k == |data|) + (if k == |data| then [Stop] else [])
  }

  /** The events of a chunk of a write. */
  function TxChunk(addr: bv8, chunk: seq<bv8>, first: bool, last: bool): seq<Event> {
    (if first then [Start(addr & 0x7F, false)] else []) + SentAll(chunk) + (if last then [Stop] else [])
  }

  function RxChunk(addr: bv8, chunk: seq<bv8>, first: bool, last: bool): seq<Event> {
    (if first then [Start(addr & 0x7F, true)] else []) + ReceivedAll(chunk, last) + (if last then [Stop] else [])
  }

  /** However a write is cut into chunks, the chunks add up. */
  lemma TxChunkExtends(addr: bv8, bytes: seq<bv8>, k: nat, n: nat)
    requires 0 < n && k + n <= |bytes|
    ensures WrittenUpTo(addr, bytes, k) + TxChunk(addr, bytes[k..k + n], k == 0, k + n == |bytes|)
      == WrittenUpTo(addr, bytes, k + n)
  {
    if k == 0 {
      assert bytes[0..n] == bytes[..n];
    } else {
      var sent, chunk := SentAll(bytes[..k]), SentAll(bytes[k..k + n]);
      assert sent + chunk == SentAll(bytes[..k + n]) by {
        assert bytes[..k] + bytes[k..k + n] == bytes[..k + n];
      }
      Regroup([Start(addr & 0x7F, false)], sent, chunk, if k + n == |bytes| then [Stop] else []);
    }
  }

  lemma Regroup<T>(opening: seq<T>, a: seq<T>, b: seq<T>, closing: seq<T>)
    ensures (opening + a + []) + ([] + b + closing) == opening + (a + b) + closing
  {
  }

  lemma SlicesAdd<T>(s: seq<T>, k: nat, n: nat)
    requires k + n <= |s|
    ensures s[..k] + s[k..k + n] == s[..k + n]
  {
  }

  lemma ReceivedAppend(a: seq<bv8>, b: seq<bv8>, last: bool)
    requires b != []
    ensures ReceivedAll(a, false) + ReceivedAll(b, last) == ReceivedAll(a + b, last)
  {
  }

  lemma RxChunkExtends(addr: bv8, data: seq<bv8>, k: nat, n: nat)
    requires 0 < n && k + n <= |data|
    ensures ReadUpTo(addr, data, k) + RxChunk(addr, data[k..k + n], k == 0, k + n == |data|)
      == ReadUpTo(addr, data, k + n)
  {
    var last := k + n == |data|;
    if k == 0 {
      assert data[0..n] == data[..n];
    } else {
      var got, chunk := ReceivedAll(data[..k], false), ReceivedAll(data[k..k + n], last);
      ReceivedAppend(data[..k], data[k..k + n], last);
      SlicesAdd(data, k, n);
      Regroup([Start(addr & 0x7F, true)], got, chunk, if last then [Stop] else []);
    }
  }

  /** A partial write is a prefix of the whole. */
  lemma WrittenIsPrefix(addr: bv8, bytes: seq<bv8>, k: nat)
    requires k <= |bytes|
    ensures WrittenUpTo(addr, bytes, k) <= WriteTrace(addr, bytes)
  {
    assert bytes[..|bytes|] == bytes;
    assert SentAll(bytes) == SentAll(bytes[..k]) + SentAll(bytes[k..]);
  }

  lemma ReadIsPrefix(addr: bv8, data: seq<bv8>, k: nat)
    requires k <= |data|
    ensures ReadUpTo(addr, data, k) <= ReadTrace(addr, data)
  {
    if k == |data| {
      assert data[..k] == data;
    } else {
      assert ReceivedAll(data, true) == ReceivedAll(data[..k], false) + ReceivedAll(data, true)[k..];
    }
  }

  // ---- commands

  function TxCommand(addr: bv8, mode: bv32, first: bool, last: bool): bv32 {
    PKT_EN | TX_CMD | mode | (if first then PktAddr(addr) | START_CMD else 0) | (if last then STOP_CMD else 0)
  }

  function RxCommand(addr: bv8, mode: bv32, first: bool, last: bool): bv32 {
    PKT_EN | RX_CMD | mode | (if first then PktAddr(addr) | START_CMD else 0)
    | (if last then RX_CMD_LAST | STOP_CMD else 0)
  }

  lemma TxCommandIs(addr: bv8, mode: bv32, first: bool, last: bool)
    requires mode == 0 || mode == TX_BUFF_EN || mode == TX_DMA_EN
    ensures IsTx(TxCommand(addr, mode, first, last), addr, mode, first, last)
  {
  }

  lemma RxCommandIs(addr: bv8, mode: bv32, first: bool, last: bool)
    requires mode == 0 || mode == RX_BUFF_EN || mode == RX_DMA_EN
    ensures IsRx(RxCommand(addr, mode, first, last), addr, mode, first, last)
  {
  }

  /** Two command words in full: a single byte written to target 0x50 and one read from it. */
  lemma CommandWords()
    ensures TxCommand(0x50, 0, true, true) == 0x5001_0023 && RxCommand(0x50, 0, true, true) == 0x5001_0039
    ensures TxCommand(0x50, TX_BUFF_EN, false, false) == 0x0001_0042
    ensures TxCommand(0x50, TX_DMA_EN, false, false) == 0x0001_0102
    ensures RxCommand(0x50, RX_BUFF_EN, false, false) == 0x0001_0088
    ensures RxCommand(0x50, RX_DMA_EN, false, false) == 0x0001_0208
  {
  }

  lemma TxEventsAre(cmd: bv32, addr: bv8, mode: bv32, first: bool, last: bool, chunk: seq<bv8>)
    requires IsTx(cmd, addr, mode, first, last)
    ensures Opening(cmd) + SentAll(chunk) + Closing(cmd) == TxChunk(addr, chunk, first, last)
  {
  }

  lemma RxEventsAre(cmd: bv32, addr: bv8, mode: bv32, first: bool, last: bool, chunk: seq<bv8>)
    requires IsRx(cmd, addr, mode, first, last)
    ensures Opening(cmd) + ReceivedAll(chunk, cmd & RX_CMD_LAST != 0) + Closing(cmd)
      == RxChunk(addr, chunk, first, last)
  {
  }

  // ---- contracts

  /** Between traces t0 and t1 a write went as asked, or stopped on the way. */
  ghost predicate Wrote(t0: seq<Event>, t1: seq<Event>, addr: bv8, bytes: seq<bv8>, r: Outcome) {
    && (r.Ok? ==> t1 == t0 + WriteTrace(addr, bytes))
    && t0 <= t1 <= t0 + WriteTrace(addr, bytes)
  }

  ghost predicate WasRead(t0: seq<Event>, t1: seq<Event>, addr: bv8, data: seq<bv8>, r: Outcome) {
    && (r.Ok? ==> t1 == t0 + ReadTrace(addr, data))
    && t0 <= t1 <= t0 + ReadTrace(addr, data)
  }

  /** Commands for n bytes in chunks. */
  function Chunks(n: nat, size: nat): nat
    requires size > 0
  {
    (n + size - 1) / size
  }

  lemma NextChunk(k: nat, n: nat, size: nat)
    requires (size == 32 || size == 4096) && k % size == 0 && k < n
    ensures
      var next := k + Min(size, n - k);
      Chunks(next, size) == Chunks(k, size) + 1 && (next % size == 0 || next == n)
  {
    if size == 32 {
      assert k == 32 * (k / 32);
    } else {
      assert k == 4096 * (k / 4096);
    }
  }

  lemma OneByte(bytes: seq<bv8>, i: nat)
    requires i < |bytes|
    ensures bytes[i..i + 1] == [bytes[i]]
  {
  }

  lemma PlusAssoc<T>(a: seq<T>, b: seq<T>, c: seq<T>)
    ensures (a + b) + c == a + (b + c)
  {
  }

  lemma PrefixChain<T>(t0: seq<T>, t: seq<T>, t1: seq<T>, a: seq<T>, c: seq<T>, b: seq<T>, whole: seq<T>)
    requires t == t0 + a && t <= t1 <= t + c && a + c == b && b <= whole
    ensures t0 <= t1 <= t0 + whole
  {
    PlusAssoc(t0, a, c);
    assert t0 + b <= t0 + whole;
  }

  /** One transmit command took the trace from t to t1. */
  ghost predicate TxStep(t: seq<Event>, t1: seq<Event>, addr: bv8, chunk: seq<bv8>, first: bool, last: bool,
                         f: Option<Fault>) {
    && (f.None? ==> t1 == t + TxChunk(addr, chunk, first, last))
    && t <= t1 <= t + TxChunk(addr, chunk, first, last)
  }

  ghost predicate RxStep(t: seq<Event>, t1: seq<Event>, addr: bv8, chunk: seq<bv8>, first: bool, last: bool,
                         f: Option<Fault>) {
    && (f.None? ==> t1 == t + RxChunk(addr, chunk, first, last))
    && t <= t1 <= t + RxChunk(addr, chunk, first, last)
  }

  /** One round of a write: the chunk of n bytes after the first k. */
  lemma WriteRound(t0: seq<Event>, t: seq<Event>, t1: seq<Event>, addr: bv8, bytes: seq<bv8>, k: nat, n: nat,
                   f: Option<Fault>)
    requires 0 < n && k + n <= |bytes|
    requires t == t0 + WrittenUpTo(addr, bytes, k)
    requires TxStep(t, t1, addr, bytes[k..k + n], k == 0, k + n == |bytes|, f)
    ensures f.None? ==> t1 == t0 + WrittenUpTo(addr, bytes, k + n)
    ensures f.Some? ==> Wrote(t0, t1, addr, bytes, Err(f.value))
  {
    var done, chunk := WrittenUpTo(addr, bytes, k), TxChunk(addr, bytes[k..k + n], k == 0, k + n == |bytes|);
    TxChunkExtends(addr, bytes, k, n);
    if f.None? {
      PlusAssoc(t0, done, chunk);
    } else {
      WrittenIsPrefix(addr, bytes, k + n);
      PrefixChain(t0, t, t1, done, chunk, WrittenUpTo(addr, bytes, k + n), WriteTrace(addr, bytes));
    }
  }

  lemma ReadRound(t0: seq<Event>, t: seq<Event>, t1: seq<Event>, addr: bv8, data: seq<bv8>, k: nat, n: nat,
                  f: Option<Fault>)
    requires 0 < n && k + n <= |data|
    requires t == t0 + ReadUpTo(addr, data, k)
    requires RxStep(t, t1, addr, data[k..k + n], k == 0, k + n == |data|, f)
    ensures f.None? ==> t1 == t0 + ReadUpTo(addr, data, k + n)
    ensures f.Some? ==> WasRead(t0, t1, addr, data, Err(f.value))
  {
    var done, chunk := ReadUpTo(addr, data, k), RxChunk(addr, data[k..k + n], k == 0, k + n == |data|);
    RxChunkExtends(addr, data, k, n);
    if f.None? {
      PlusAssoc(t0, done, chunk);
    } else {
      ReadIsPrefix(addr, data, k + n);
      PrefixChain(t0, t, t1, done, chunk, ReadUpTo(addr, data, k + n), ReadTrace(addr, data));
    }
  }

  lemma WriteFinished(t0: seq<Event>, t: seq<Event>, addr: bv8, bytes: seq<bv8>)
    requires bytes != [] && t == t0 + WrittenUpTo(addr, bytes, |bytes|)
    ensures Wrote(t0, t, addr, bytes, Ok)
  {
    assert bytes[..|bytes|] == bytes;
  }

  lemma ReadFinished(t0: seq<Event>, t: seq<Event>, addr: bv8, data: seq<bv8>)
    requires data != [] && t == t0 + ReadUpTo(addr, data, |data|)
    ensures WasRead(t0, t, addr, data, Ok)
  {
    assert data[..|data|] == data;
  }

  /** Writing the next n bytes of the stream after the first k. */
  lemma StreamExtends(s: seq<bv8>, target: nat -> bv8, k0: nat, k: nat, n: nat)
    requires k + n <= |s| && s[..k] == Stream(target, k0, k)
    ensures Splice(s, k, Stream(target, k0 + k, n))[..k + n] == Stream(target, k0, k + n)
  {
  }

  lemma StreamSnoc(target: nat -> bv8, k0: nat, k: nat)
    ensures Stream(target, k0, k + 1) == Stream(target, k0, k) + [target(k0 + k)]
  {
  }

  // ---- buffer words

  /** The bytes of data packed little-endian into the word at idx. */
  function PackWord(data: seq<bv8>, idx: nat): bv32
    requires idx < |data|
  {
    data[idx] as bv32
    | (if idx + 1 < |data| then data[idx + 1] as bv32 << 8 else 0)
    | (if idx + 2 < |data| then data[idx + 2] as bv32 << 16 else 0)
    | (if idx + 3 < |data| then data[idx + 3] as bv32 << 24 else 0)
  }

  lemma PackedBytes(b0: bv8, b1: bv8, b2: bv8, b3: bv8, w: bv32)
    requires w == b0 as bv32 | (b1 as bv32 << 8) | (b2 as bv32 << 16) | (b3 as bv32 << 24)
    ensures WordByte(w, 0) == b0 && WordByte(w, 1) == b1 && WordByte(w, 2) == b2 && WordByte(w, 3) == b3
  {
  }

  function At(data: seq<bv8>, i: nat): bv8 {
    if i < |data| then data[i] else 0
  }

  class Ast1060I2c {
    const hw: Hardware
    const dmaBuf: array?<bv8>
    const xferMode: XferMode
    var currentAddr: bv8
    var currentLen: nat
    var currentXferCnt: nat

    ghost predicate Valid()
    {
      hw.Shape() && dmaBuf != hw.pool
    }

    constructor (hw: Hardware, dmaBuf: array?<bv8>, xferMode: XferMode)
      requires hw.Shape() && dmaBuf != hw.pool
      ensures Valid() && this.hw == hw && this.dmaBuf == dmaBuf && this.xferMode == xferMode
    {
      this.hw, this.dmaBuf, this.xferMode := hw, dmaBuf, xferMode;
      currentAddr, currentLen, currentXferCnt := 0, 0, 0;
    }

    /** Copy data into the buffer registers, a word at a time. */
    method CopyToBuffer(data: seq<bv8>) returns (r: Outcome)
      requires Valid()
      modifies hw.pool
      ensures r == if |data| > BUFFER_MODE_SIZE then Err(Invalid) else Ok
      ensures r.Ok? ==> hw.pool[..|data|] == data
    {
      if |data| > BUFFER_MODE_SIZE {
        return Err(Invalid);
      }
      var idx := 0;
      while idx < |data|
        invariant idx % 4 == 0
        invariant forall i | 0 <= i < idx && i < |data| :: hw.pool[i] == data[i]
      {
        PutWord(data, idx / 4);
        idx := idx + 4;
      }
      r := Ok;
    }

    /** Pack four bytes, or what is left of data, into buffer word i. */
    method PutWord(data: seq<bv8>, i: nat)
      requires Valid() && i < 8 && 4 * i < |data|
      modifies hw.pool
      ensures forall j | 4 * i <= j < 4 * i + 4 && j < |data| :: hw.pool[j] == data[j]
      ensures forall j | 0 <= j < 4 * i :: hw.pool[j] == old(hw.pool[j])
    {
      var dword := PackWord(data, 4 * i);
      PackedBytes(data[4 * i], At(data, 4 * i + 1), At(data, 4 * i + 2), At(data, 4 * i + 3), dword);
      hw.WriteWord(i, dword);
    }

    /** The four bytes of buffer word i. */
    method GetWord(i: nat) returns (word: seq<bv8>)
      requires Valid() && i < 8
      ensures word == hw.pool[4 * i..4 * i + 4]
    {
      var dword := hw.ReadWord(i);
      PackedBytes(hw.pool[4 * i], hw.pool[4 * i + 1], hw.pool[4 * i + 2], hw.pool[4 * i + 3], dword);
      word := [WordByte(dword, 0), WordByte(dword, 1), WordByte(dword, 2), WordByte(dword, 3)];
    }

    /** Copy n bytes out of the buffer registers, a word at a time. */
    method CopyFromBuffer(n: nat) returns (r: Outcome, data: seq<bv8>)
      requires Valid()
      ensures r == if n > BUFFER_MODE_SIZE then Err(Invalid) else Ok
      ensures r.Ok? ==> data == hw.pool[..n]
    {
      data := [];
      if n > BUFFER_MODE_SIZE {
        return Err(Invalid), data;
      }
      var idx := 0;
      while idx < n
        invariant idx % 4 == 0 && |data| == Min(idx, n)
        invariant data == hw.pool[..|data|]
      {
        var word := GetWord(idx / 4);
        data := data + word[..Min(4, n - idx)];
        idx := idx + 4;
      }
      r := Ok;
    }

    // ---- one command

    method SendByte(addr: bv8, b: bv8, first: bool, last: bool) returns (f: Option<Fault>)
      requires Valid()
      modifies hw`txByte, hw`trace, hw`commands
      ensures hw.commands == old(hw.commands) + 1 && f == hw.fault(old(hw.commands))
      ensures TxStep(old(hw.trace), hw.trace, addr, [b], first, last, f)
    {
      hw.txByte := b;
      var cmd := TxCommand(addr, 0, first, last);
      TxCommandIs(addr, 0, first, last);
      TxEventsAre(cmd, addr, 0, first, last, [b]);
      f := hw.IssueTx(cmd, dmaBuf);
    }

    method SendBuffered(addr: bv8, chunk: seq<bv8>, first: bool, last: bool) returns (f: Option<Fault>)
      requires Valid() && 0 < |chunk| <= BUFFER_MODE_SIZE
      modifies hw`txCount, hw`trace, hw`commands, hw.pool
      ensures hw.commands == old(hw.commands) + 1 && f == hw.fault(old(hw.commands))
      ensures TxStep(old(hw.trace), hw.trace, addr, chunk, first, last, f)
    {
      var _ := CopyToBuffer(chunk);
      hw.txCount := |chunk| - 1;
      var cmd := TxCommand(addr, TX_BUFF_EN, first, last);
      TxCommandIs(addr, TX_BUFF_EN, first, last);
      TxEventsAre(cmd, addr, TX_BUFF_EN, first, last, chunk);
      f := hw.IssueTx(cmd, dmaBuf);
    }

    method SendDma(addr: bv8, chunk: seq<bv8>, first: bool, last: bool) returns (f: Option<Fault>)
      requires Valid() && dmaBuf != null && 0 < |chunk| <= dmaBuf.Length
      modifies hw`dmaTxLen, hw`trace, hw`commands, dmaBuf
      ensures hw.commands == old(hw.commands) + 1 && f == hw.fault(old(hw.commands))
      ensures TxStep(old(hw.trace), hw.trace, addr, chunk, first, last, f)
    {
      CopyInto(dmaBuf, 0, chunk);
      hw.dmaTxLen := |chunk| - 1;
      var cmd := TxCommand(addr, TX_DMA_EN, first, last);
      TxCommandIs(addr, TX_DMA_EN, first, last);
      TxEventsAre(cmd, addr, TX_DMA_EN, first, last, chunk);
      f := hw.IssueTx(cmd, dmaBuf);
    }

    method ReceiveByte(addr: bv8, first: bool, last: bool) returns (f: Option<Fault>)
      requires Valid()
      modifies hw, hw.pool, dmaBuf
      ensures hw.commands == old(hw.commands) + 1 && f == hw.fault(old(hw.commands))
      ensures RxStep(old(hw.trace), hw.trace, addr, old(hw.Incoming(1)), first, last, f)
      ensures f.None? ==> hw.received == old(hw.received) + 1 && hw.rxByte == hw.target(old(hw.received))
    {
      var cmd := RxCommand(addr, 0, first, last);
      RxCommandIs(addr, 0, first, last);
      RxEventsAre(cmd, addr, 0, first, last, hw.Incoming(1));
      f := hw.IssueRx(cmd, dmaBuf);
    }

    method ReceiveBuffered(addr: bv8, n: nat, first: bool, last: bool) returns (f: Option<Fault>)
      requires Valid() && 0 < n <= BUFFER_MODE_SIZE
      modifies hw, hw.pool, dmaBuf
      ensures hw.commands == old(hw.commands) + 1 && f == hw.fault(old(hw.commands))
      ensures RxStep(old(hw.trace), hw.trace, addr, old(hw.Incoming(n)), first, last, f)
      ensures f.None? ==> hw.received == old(hw.received) + n && hw.pool[..n] == old(hw.Incoming(n))
    {
      hw.rxSize := n - 1;
      var cmd := RxCommand(addr, RX_BUFF_EN, first, last);
      RxCommandIs(addr, RX_BUFF_EN, first, last);
      RxEventsAre(cmd, addr, RX_BUFF_EN, first, last, hw.Incoming(n));
      f := hw.IssueRx(cmd, dmaBuf);
    }

    method ReceiveDma(addr: bv8, n: nat, first: bool, last: bool) returns (f: Option<Fault>)
      requires Valid() && dmaBuf != null && 0 < n <= dmaBuf.Length
      modifies hw, hw.pool, dmaBuf
      ensures hw.commands == old(hw.commands) + 1 && f == hw.fault(old(hw.commands))
      ensures RxStep(old(hw.trace), hw.trace, addr, old(hw.Incoming(n)), first, last, f)
      ensures f.None? ==> hw.received == old(hw.received) + n && dmaBuf[..n] == old(hw.Incoming(n))
    {
      hw.dmaRxLen := n - 1;
      var cmd := RxCommand(addr, RX_DMA_EN, first, last);
      RxCommandIs(addr, RX_DMA_EN, first, last);
      RxEventsAre(cmd, addr, RX_DMA_EN, first, last, hw.Incoming(n));
      f := hw.IssueRx(cmd, dmaBuf);
    }

    // ---- writes

    /** The failure r is one the bus reported. */
    ghost predicate FaultReported(r: Outcome) {
      r.Err? && exists n :: hw.fault(n) == Some(r.error)
    }

    /** Byte i of a write that started with trace t0. */
    method WriteByteAt(addr: bv8, bytes: seq<bv8>, i: nat, ghost t0: seq<Event>) returns (f: Option<Fault>)
      requires Valid() && i < |bytes| && hw.trace == t0 + WrittenUpTo(addr, bytes, i)
      modifies hw`txByte, hw`trace, hw`commands
      ensures hw.commands == old(hw.commands) + 1 && f == hw.fault(old(hw.commands))
      ensures f.None? ==> hw.trace == t0 + WrittenUpTo(addr, bytes, i + 1)
      ensures f.Some? ==> Wrote(t0, hw.trace, addr, bytes, Err(f.value))
    {
      ghost var t := hw.trace;
      f := SendByte(addr, bytes[i], i == 0, i == |bytes| - 1);
      OneByte(bytes, i);
      WriteRound(t0, t, hw.trace, addr, bytes, i, 1, f);
    }

    method WriteByteMode(addr: bv8, bytes: seq<bv8>) returns (r: Outcome)
      requires Valid() && bytes != []
      modifies this, hw`txByte, hw`trace, hw`commands
      ensures Wrote(old(hw.trace), hw.trace, addr, bytes, r)
      ensures r.Ok? ==> currentXferCnt == |bytes|
      ensures r.Ok? ==> hw.commands == old(hw.commands) + |bytes|
      ensures r.Ok? || FaultReported(r)
    {
      currentAddr, currentLen, currentXferCnt := addr, |bytes|, 0;
      for i := 0 to |bytes|
        invariant hw.trace == old(hw.trace) + WrittenUpTo(addr, bytes, i)
        invariant currentXferCnt == i && hw.commands == old(hw.commands) + i
      {
        var f := WriteByteAt(addr, bytes, i, old(hw.trace));
        if f.Some? {
          return Err(f.value);
        }
        currentXferCnt := currentXferCnt + 1;
      }
      WriteFinished(old(hw.trace), hw.trace, addr, bytes);
      r := Ok;
    }

    method WriteBufferMode(addr: bv8, bytes: seq<bv8>) returns (r: Outcome)
      requires Valid() && bytes != []
      modifies this, hw`txCount, hw`trace, hw`commands, hw.pool
      ensures Wrote(old(hw.trace), hw.trace, addr, bytes, r)
      ensures r.Ok? ==> currentXferCnt == |bytes|
      ensures r.Ok? ==> hw.commands == old(hw.commands) + Chunks(|bytes|, 32)
      ensures r.Ok? || FaultReported(r)
    {
      var offset := 0;
      currentAddr, currentLen, currentXferCnt := addr, |bytes|, 0;
      while offset < |bytes|
        invariant offset <= |bytes|
        invariant hw.trace == old(hw.trace) + WrittenUpTo(addr, bytes, offset)
        invariant currentXferCnt == offset
        invariant hw.commands == old(hw.commands) + Chunks(offset, 32)
        invariant offset % 32 == 0 || offset == |bytes|
      {
        var chunkLen := Min(BUFFER_MODE_SIZE, |bytes| - offset);
        NextChunk(offset, |bytes|, 32);
        var chunk := bytes[offset..offset + chunkLen];
        ghost var t := hw.trace;
        var f := SendBuffered(addr, chunk, offset == 0, offset + chunkLen >= |bytes|);
        WriteRound(old(hw.trace), t, hw.trace, addr, bytes, offset, chunkLen, f);
        if f.Some? {
          return Err(f.value);
        }
        currentXferCnt := currentXferCnt + chunkLen;
        offset := offset + chunkLen;
      }
      WriteFinished(old(hw.trace), hw.trace, addr, bytes);
      r := Ok;
    }

    /** Whether the DMA buffer takes the first, and so every, chunk of n bytes. */
    predicate DmaReady(n: nat) {
      dmaBuf != null && Min(DMA_MODE_MAX_SIZE, n) <= dmaBuf.Length
    }

    method WriteDmaMode(addr: bv8, bytes: seq<bv8>) returns (r: Outcome)
      requires Valid() && bytes != []
      modifies this, hw`dmaTxLen, hw`trace, hw`commands, dmaBuf
      ensures r == Err(Invalid) <==> !DmaReady(|bytes|)
      ensures r == Err(Invalid) ==> hw.commands == old(hw.commands) && hw.trace == old(hw.trace)
      ensures Wrote(old(hw.trace), hw.trace, addr, bytes, r)
      ensures r.Ok? ==> currentXferCnt == |bytes|
      ensures r.Ok? ==> hw.commands == old(hw.commands) + Chunks(|bytes|, 4096)
      ensures r.Ok? || r == Err(Invalid) || FaultReported(r)
    {
      var offset := 0;
      currentAddr, currentLen, currentXferCnt := addr, |bytes|, 0;
      while offset < |bytes|
        invariant offset <= |bytes|
        invariant offset > 0 ==> DmaReady(|bytes|)
        invariant hw.trace == old(hw.trace) + WrittenUpTo(addr, bytes, offset)
        invariant offset == 0 ==> hw.commands == old(hw.commands)
        invariant currentXferCnt == offset
        invariant hw.commands == old(hw.commands) + Chunks(offset, 4096)
        invariant offset % 4096 == 0 || offset == |bytes|
      {
        var chunkLen := Min(DMA_MODE_MAX_SIZE, |bytes| - offset);
        NextChunk(offset, |bytes|, 4096);
        var chunk := bytes[offset..offset + chunkLen];
        if dmaBuf == null || dmaBuf.Length < chunkLen {
          return Err(Invalid);
        }
        ghost var t := hw.trace;
        var f := SendDma(addr, chunk, offset == 0, offset + chunkLen >= |bytes|);
        WriteRound(old(hw.trace), t, hw.trace, addr, bytes, offset, chunkLen, f);
        if f.Some? {
          return Err(f.value);
        }
        currentXferCnt := currentXferCnt + chunkLen;
        offset := offset + chunkLen;
      }
      WriteFinished(old(hw.trace), hw.trace, addr, bytes);
      r := Ok;
    }

    /** Whether the driver rejects a transfer of n bytes before it touches the bus. */
    predicate Rejected(n: nat) {
      xferMode.DmaMode? && n > 0 && !DmaReady(n)
    }

    /** Commands for n bytes. */
    function CommandsFor(n: nat): nat {
      match xferMode
      case ByteMode => n
      case BufferMode => Chunks(n, 32)
      case DmaMode => Chunks(n, 4096)
    }

    /** Whatever the mode, the bus sees the same write. */
    method Write(addr: bv8, bytes: seq<bv8>) returns (r: Outcome)
      requires Valid()
      modifies this, hw`txByte, hw`txCount, hw`dmaTxLen, hw`trace, hw`commands, hw.pool, dmaBuf
      ensures bytes == [] ==> r == Ok && hw.trace == old(hw.trace)
      ensures bytes != [] ==> Wrote(old(hw.trace), hw.trace, addr, bytes, r)
      ensures r == Err(Invalid) <==> Rejected(|bytes|)
      ensures r == Err(Invalid) ==> hw.commands == old(hw.commands) && hw.trace == old(hw.trace)
      ensures r.Ok? ==> hw.commands == old(hw.commands) + CommandsFor(|bytes|)
      ensures (forall n :: hw.fault(n).None?) && !Rejected(|bytes|) ==> r == Ok
    {
      if bytes == [] {
        return Ok;
      }
      match xferMode
      case ByteMode => r := WriteByteMode(addr, bytes);
      case BufferMode => r := WriteBufferMode(addr, bytes);
      case DmaMode => r := WriteDmaMode(addr, bytes);
    }

    // ---- reads

    /** After a read that started with trace t0 and position k0 has taken in k of n bytes. */
    ghost predicate ReadSoFar(t0: seq<Event>, k0: nat, addr: bv8, n: nat, k: nat)
      reads hw
    {
      && k <= n && hw.received == k0 + k
      && hw.trace == t0 + ReadUpTo(addr, Stream(hw.target, k0, n), k)
    }

    /** What one command of a read adds. */
    lemma ReadSoFarExtends(t0: seq<Event>, k0: nat, addr: bv8, n: nat, k: nat, m: nat, t: seq<Event>, f: Option<Fault>)
      requires 0 < m && k + m <= n && t == t0 + ReadUpTo(addr, Stream(hw.target, k0, n), k)
      requires RxStep(t, hw.trace, addr, Stream(hw.target, k0 + k, m), k == 0, k + m == n, f)
      requires f.None? ==> hw.received == k0 + k + m
      ensures f.None? ==> ReadSoFar(t0, k0, addr, n, k + m)
      ensures f.Some? ==> WasRead(t0, hw.trace, addr, Stream(hw.target, k0, n), Err(f.value))
    {
      StreamSlice(hw.target, k0, n, k, m);
      ReadRound(t0, t, hw.trace, addr, Stream(hw.target, k0, n), k, m, f);
    }

    method ReadByteMode(addr: bv8, buffer: array<bv8>) returns (r: Outcome)
      requires Valid() && buffer.Length > 0 && buffer != hw.pool && buffer != dmaBuf
      modifies this, hw, hw.pool, dmaBuf, buffer
      ensures WasRead(old(hw.trace), hw.trace, addr, old(hw.Incoming(buffer.Length)), r)
      ensures r.Ok? ==> buffer[..] == old(hw.Incoming(buffer.Length))
      ensures r.Ok? ==> hw.received == old(hw.received) + buffer.Length && currentXferCnt == buffer.Length
      ensures r.Ok? ==> hw.commands == old(hw.commands) + buffer.Length
      ensures r.Ok? || FaultReported(r)
    {
      currentAddr, currentLen, currentXferCnt := addr, buffer.Length, 0;
      for i := 0 to buffer.Length
        invariant currentXferCnt == i && hw.commands == old(hw.commands) + i
        invariant ReadSoFar(old(hw.trace), old(hw.received), addr, buffer.Length, i)
        invariant buffer[..i] == Stream(hw.target, old(hw.received), i)
      {
        var f := ReadOneByte(addr, buffer, i, old(hw.trace), old(hw.received));
        if f.Some? {
          return Err(f.value);
        }
        currentXferCnt := currentXferCnt + 1;
      }
      ReadFinished(old(hw.trace), hw.trace, addr, old(hw.Incoming(buffer.Length)));
      r := Ok;
    }

    /** Byte i of a read. */
    method ReadOneByte(addr: bv8, buffer: array<bv8>, i: nat, ghost t0: seq<Event>, ghost k0: nat)
      returns (f: Option<Fault>)
      requires Valid() && i < buffer.Length && buffer != hw.pool && buffer != dmaBuf
      requires ReadSoFar(t0, k0, addr, buffer.Length, i) && buffer[..i] == Stream(hw.target, k0, i)
      modifies hw, hw.pool, dmaBuf, buffer
      ensures hw.commands == old(hw.commands) + 1
      ensures f.Some? ==> FaultReported(Err(f.value))
      ensures f.None? ==> ReadSoFar(t0, k0, addr, buffer.Length, i + 1)
      ensures f.None? ==> buffer[..i + 1] == Stream(hw.target, k0, i + 1)
      ensures f.Some? ==> WasRead(t0, hw.trace, addr, Stream(hw.target, k0, buffer.Length), Err(f.value))
    {
      f := ReceiveByte(addr, i == 0, i == buffer.Length - 1);
      ReadSoFarExtends(t0, k0, addr, buffer.Length, i, 1, old(hw.trace), f);
      StreamSnoc(hw.target, k0, i);
      StoreRxByte(buffer, i);
    }

    /** The byte register goes to buffer[i], whether or not the command worked. */
    method StoreRxByte(buffer: array<bv8>, i: nat)
      requires i < buffer.Length
      modifies buffer
      ensures buffer[..i + 1] == old(buffer[..i]) + [hw.rxByte]
    {
      buffer[i] := hw.rxByte;
    }

    method ReadBufferMode(addr: bv8, buffer: array<bv8>) returns (r: Outcome)
      requires Valid() && buffer.Length > 0 && buffer != hw.pool && buffer != dmaBuf
      modifies this, hw, hw.pool, dmaBuf, buffer
      ensures WasRead(old(hw.trace), hw.trace, addr, old(hw.Incoming(buffer.Length)), r)
      ensures r.Ok? ==> buffer[..] == old(hw.Incoming(buffer.Length))
      ensures r.Ok? ==> hw.received == old(hw.received) + buffer.Length && currentXferCnt == buffer.Length
      ensures r.Ok? ==> hw.commands == old(hw.commands) + Chunks(buffer.Length, 32)
      ensures r.Ok? || FaultReported(r)
    {
      var offset := 0;
      currentAddr, currentLen, currentXferCnt := addr, buffer.Length, 0;
      while offset < buffer.Length
        invariant offset <= buffer.Length
        invariant currentXferCnt == offset
        invariant hw.commands == old(hw.commands) + Chunks(offset, 32)
        invariant offset % 32 == 0 || offset == buffer.Length
        invariant ReadSoFar(old(hw.trace), old(hw.received), addr, buffer.Length, offset)
        invariant buffer[..offset] == Stream(hw.target, old(hw.received), offset)
      {
        var chunkLen := Min(BUFFER_MODE_SIZE, buffer.Length - offset);
        NextChunk(offset, buffer.Length, 32);
        var f := ReadOneBuffer(addr, buffer, offset, chunkLen, old(hw.trace), old(hw.received));
        if f.Some? {
          return Err(f.value);
        }
        currentXferCnt := currentXferCnt + chunkLen;
        offset := offset + chunkLen;
      }
      ReadFinished(old(hw.trace), hw.trace, addr, old(hw.Incoming(buffer.Length)));
      r := Ok;
    }

    /** One chunk of a read through the buffer registers. */
    method ReadOneBuffer(addr: bv8, buffer: array<bv8>, offset: nat, n: nat, ghost t0: seq<Event>, ghost k0: nat)
      returns (f: Option<Fault>)
      requires Valid() && 0 < n <= BUFFER_MODE_SIZE && offset + n <= buffer.Length
      requires buffer != hw.pool && buffer != dmaBuf
      requires ReadSoFar(t0, k0, addr, buffer.Length, offset) && buffer[..offset] == Stream(hw.target, k0, offset)
      modifies hw, hw.pool, dmaBuf, buffer
      ensures hw.commands == old(hw.commands) + 1
      ensures f.Some? ==> FaultReported(Err(f.value))
      ensures f.None? ==> ReadSoFar(t0, k0, addr, buffer.Length, offset + n)
      ensures f.None? ==> buffer[..offset + n] == Stream(hw.target, k0, offset + n)
      ensures f.Some? ==> WasRead(t0, hw.trace, addr, Stream(hw.target, k0, buffer.Length), Err(f.value))
    {
      f := ReceiveBuffered(addr, n, offset == 0, offset + n >= buffer.Length);
      ReadSoFarExtends(t0, k0, addr, buffer.Length, offset, n, old(hw.trace), f);
      if f.None? {
        var _, chunk := CopyFromBuffer(n);
        StreamExtends(buffer[..], hw.target, k0, offset, n);
        CopyInto(buffer, offset, chunk);
      }
    }

    method ReadDmaMode(addr: bv8, buffer: array<bv8>) returns (r: Outcome)
      requires Valid() && buffer.Length > 0 && buffer != hw.pool && buffer != dmaBuf
      modifies this, hw, hw.pool, dmaBuf, buffer
      ensures r == Err(Invalid) <==> !DmaReady(buffer.Length)
      ensures r == Err(Invalid) ==> hw.commands == old(hw.commands) && hw.trace == old(hw.trace)
      ensures WasRead(old(hw.trace), hw.trace, addr, old(hw.Incoming(buffer.Length)), r)
      ensures r.Ok? ==> buffer[..] == old(hw.Incoming(buffer.Length))
      ensures r.Ok? ==> hw.received == old(hw.received) + buffer.Length && currentXferCnt == buffer.Length
      ensures r.Ok? ==> hw.commands == old(hw.commands) + Chunks(buffer.Length, 4096)
      ensures r.Ok? || r == Err(Invalid) || FaultReported(r)
    {
      var offset := 0;
      currentAddr, currentLen, currentXferCnt := addr, buffer.Length, 0;
      while offset < buffer.Length
        invariant offset <= buffer.Length
        invariant offset > 0 ==> DmaReady(buffer.Length)
        invariant offset == 0 ==> hw.commands == old(hw.commands) && hw.trace == old(hw.trace)
        invariant currentXferCnt == offset
        invariant hw.commands == old(hw.commands) + Chunks(offset, 4096)
        invariant offset % 4096 == 0 || offset == buffer.Length
        invariant ReadSoFar(old(hw.trace), old(hw.received), addr, buffer.Length, offset)
        invariant buffer[..offset] == Stream(hw.target, old(hw.received), offset)
      {
        var chunkLen := Min(DMA_MODE_MAX_SIZE, buffer.Length - offset);
        NextChunk(offset, buffer.Length, 4096);
        if dmaBuf == null || dmaBuf.Length < chunkLen {
          return Err(Invalid);
        }
        var f := ReadOneDma(addr, buffer, offset, chunkLen, old(hw.trace), old(hw.received));
        if f.Some? {
          return Err(f.value);
        }
        currentXferCnt := currentXferCnt + chunkLen;
        offset := offset + chunkLen;
      }
      ReadFinished(old(hw.trace), hw.trace, addr, old(hw.Incoming(buffer.Length)));
      r := Ok;
    }

    /** One chunk of a read by DMA. */
    method ReadOneDma(addr: bv8, buffer: array<bv8>, offset: nat, n: nat, ghost t0: seq<Event>, ghost k0: nat)
      returns (f: Option<Fault>)
      requires Valid() && dmaBuf != null && 0 < n <= dmaBuf.Length && offset + n <= buffer.Length
      requires buffer != hw.pool && buffer != dmaBuf
      requires ReadSoFar(t0, k0, addr, buffer.Length, offset) && buffer[..offset] == Stream(hw.target, k0, offset)
      modifies hw, hw.pool, dmaBuf, buffer
      ensures hw.commands == old(hw.commands) + 1
      ensures f.Some? ==> FaultReported(Err(f.value))
      ensures f.None? ==> ReadSoFar(t0, k0, addr, buffer.Length, offset + n)
      ensures f.None? ==> buffer[..offset + n] == Stream(hw.target, k0, offset + n)
      ensures f.Some? ==> WasRead(t0, hw.trace, addr, Stream(hw.target, k0, buffer.Length), Err(f.value))
    {
      f := ReceiveDma(addr, n, offset == 0, offset + n >= buffer.Length);
      ReadSoFarExtends(t0, k0, addr, buffer.Length, offset, n, old(hw.trace), f);
      if f.None? {
        StreamExtends(buffer[..], hw.target, k0, offset, n);
        CopyInto(buffer, offset, dmaBuf[..n]);
      }
    }

    /** Whatever the mode, the bus sees the same read, and the caller gets what the target
      * sent. */
    method Read(addr: bv8, buffer: array<bv8>) returns (r: Outcome)
      requires Valid() && buffer != hw.pool && buffer != dmaBuf
      modifies this, hw, hw.pool, dmaBuf, buffer
      ensures buffer.Length == 0 ==> r == Ok && hw.trace == old(hw.trace)
      ensures buffer.Length > 0 ==>
        WasRead(old(hw.trace), hw.trace, addr, old(hw.Incoming(buffer.Length)), r)
      ensures r.Ok? ==> buffer[..] == old(hw.Incoming(buffer.Length))
      ensures r == Err(Invalid) <==> Rejected(buffer.Length)
      ensures r == Err(Invalid) ==> hw.commands == old(hw.commands) && hw.trace == old(hw.trace)
      ensures r.Ok? ==> hw.commands == old(hw.commands) + CommandsFor(buffer.Length)
      ensures (forall n :: hw.fault(n).None?) && !Rejected(buffer.Length) ==> r == Ok
    {
      if buffer.Length == 0 {
        return Ok;
      }
      match xferMode
      case ByteMode => r := ReadByteMode(addr, buffer);
      case BufferMode => r := ReadBufferMode(addr, buffer);
      case DmaMode => r := ReadDmaMode(addr, buffer);
    }

    /** A write, with outcome w, and then a read.  They are two transactions, each with its own
      * STOP; nothing is read if the write fails, wherever it failed.  The read may be rejected
      * when the write is already on the bus. */
    method WriteRead(addr: bv8, bytes: seq<bv8>, buffer: array<bv8>) returns (r: Outcome, ghost w: Outcome)
      requires Valid() && buffer != hw.pool && buffer != dmaBuf
      modifies this, hw, hw.pool, dmaBuf, buffer
      ensures bytes == [] ==> w == Ok
      ensures bytes != [] && w.Err? ==> Wrote(old(hw.trace), hw.trace, addr, bytes, w)
      ensures w.Err? ==> r == w && buffer[..] == old(buffer[..]) && hw.received == old(hw.received)
      ensures w.Ok? && buffer.Length == 0 ==> r == Ok && hw.trace == old(hw.trace) + Written(addr, bytes)
      ensures w.Ok? && buffer.Length > 0 ==>
        WasRead(old(hw.trace) + Written(addr, bytes), hw.trace, addr, old(hw.Incoming(buffer.Length)), r)
      ensures r.Ok? ==> buffer[..] == old(hw.Incoming(buffer.Length))
      ensures w == Err(Invalid) <==> Rejected(|bytes|)
      ensures r == Err(Invalid) <==> Rejected(|bytes|) || (w.Ok? && Rejected(buffer.Length))
      ensures r == Err(Invalid) ==>
        hw.trace == if w.Ok? then old(hw.trace) + Written(addr, bytes) else old(hw.trace)
      ensures (forall n :: hw.fault(n).None?) && !Rejected(|bytes|) && !Rejected(buffer.Length) ==> r == Ok
    {
      r := Write(addr, bytes);
      w := r;
      if r.Err? {
        return;
      }
      r := Read(addr, buffer);
    }
  }

  /** What a write that succeeds leaves on the bus. */
  function Written(addr: bv8, bytes: seq<bv8>): seq<Event> {
    if bytes == [] then [] else WriteTrace(addr, bytes)
  }
}
