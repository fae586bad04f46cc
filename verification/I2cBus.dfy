/** The I2C master hardware as the driver sees it: a command register whose commands
  * become bus events, a byte register, a 32-byte pool and a DMA engine
  * (src/i2c_core/constants.rs, src/i2c_core/master.rs). */
module I2cBus {
  import opened Bytes

  const PKT_EN: bv32 := 0x1_0000
  const RX_DMA_EN: bv32 := 0x200
  const TX_DMA_EN: bv32 := 0x100
  const RX_BUFF_EN: bv32 := 0x80
  const TX_BUFF_EN: bv32 := 0x40
  const STOP_CMD: bv32 := 0x20
  const RX_CMD_LAST: bv32 := 0x10
  const RX_CMD: bv32 := 0x8
  const TX_CMD: bv32 := 0x2
  const START_CMD: bv32 := 0x1

  const POOL_SIZE: nat := 32

  datatype I2cError = NoAcknowledge | ArbitrationLoss | Abnormal | BusError | TimedOut | Invalid

  type Fault = e: I2cError | e != Invalid witness TimedOut

  /** What happens on the wires. */
  datatype Event =
    | Start(addr: bv8, isRead: bool)
    | Sent(b: bv8)
    | Received(b: bv8, ack: bool)
    | Stop

  function PktAddr(addr: bv8): bv32 {
    (addr & 0x7F) as bv32 << 24
  }

  /** The target address in a command. */
  function AddrOf(cmd: bv32): bv8 {
    ((cmd >> 24) & 0x7F) as bv8
  }

  function SentAll(data: seq<bv8>): (es: seq<Event>)
    ensures |es| == |data|
  {
    seq(|data|, i requires 0 <= i < |data| => Sent(data[i]))
  }

  /** Bytes read from the target; the last of the message is not acknowledged. */
  function ReceivedAll(data: seq<bv8>, last: bool): (es: seq<Event>)
    ensures |es| == |data|
  {
    seq(|data|, i requires 0 <= i < |data| => Received(data[i], !(last && i == |data| - 1)))
  }

  function Opening(cmd: bv32): seq<Event> {
    if cmd & START_CMD != 0 then [Start(AddrOf(cmd), cmd & RX_CMD != 0)] else []
  }

  function Closing(cmd: bv32): seq<Event> {
    if cmd & STOP_CMD != 0 then [Stop] else []
  }

  /** A transmit command: which of its optional parts it has. */
  predicate IsTx(cmd: bv32, addr: bv8, mode: bv32, first: bool, last: bool) {
    && cmd & PKT_EN != 0 && cmd & TX_CMD != 0 && cmd & RX_CMD == 0
    && cmd & (TX_BUFF_EN | TX_DMA_EN) == mode
    && (cmd & START_CMD != 0 <==> first) && (first ==> AddrOf(cmd) == addr & 0x7F)
    && (cmd & STOP_CMD != 0 <==> last)
  }

  predicate IsRx(cmd: bv32, addr: bv8, mode: bv32, first: bool, last: bool) {
    && cmd & PKT_EN != 0 && cmd & RX_CMD != 0 && cmd & TX_CMD == 0
    && cmd & (RX_BUFF_EN | RX_DMA_EN) == mode
    && (cmd & START_CMD != 0 <==> first) && (first ==> AddrOf(cmd) == addr & 0x7F)
    && (cmd & STOP_CMD != 0 <==> last) && (cmd & RX_CMD_LAST != 0 <==> last)
  }

  /** n bytes of what the target sends, from position k on. */
  function Stream(target: nat -> bv8, k: nat, n: nat): (s: seq<bv8>)
    ensures |s| == n
  {
    seq(n, i requires 0 <= i < n => target(k + i))
  }

  lemma StreamSlice(target: nat -> bv8, k: nat, n: nat, i: nat, m: nat)
    requires i + m <= n
    ensures Stream(target, k, n)[i..i + m] == Stream(target, k + i, m)
  {
  }

  class Hardware {
    var txByte: bv8
    var rxByte: bv8
    const pool: array<bv8>          // the buffer registers, eight little-endian words
    var txCount: nat                // bytes in the pool to send, less one
    var rxSize: nat                 // bytes to receive into the pool, less one
    var dmaTxLen: nat               // DMA lengths, less one
    var dmaRxLen: nat
    var trace: seq<Event>
    var commands: nat               // commands issued so far
    var received: nat               // bytes received so far
    const target: nat -> bv8        // what the target sends
    const fault: nat -> Option<Fault>  // how command n fails, if it does
    const cut: nat -> nat           // after how many events it fails

    predicate Shape() { pool.Length == POOL_SIZE }

    constructor (target: nat -> bv8, fault: nat -> Option<Fault>, cut: nat -> nat)
      ensures Shape() && trace == [] && commands == 0
      ensures this.target == target && this.fault == fault && this.cut == cut
    {
      pool := new bv8[POOL_SIZE](_ => 0);
      txByte, rxByte, txCount, rxSize, dmaTxLen, dmaRxLen := 0, 0, 0, 0, 0, 0;
      trace, commands, received := [], 0, 0;
      this.target, this.fault, this.cut := target, fault, cut;
    }

    /** The next n bytes from the target. */
    function Incoming(n: nat): (s: seq<bv8>)
      reads this
      ensures |s| == n
    {
      Stream(target, received, n)
    }

    /** CPU write of buffer word i. */
    method WriteWord(i: nat, w: bv32)
      requires Shape() && i < 8
      modifies pool
      ensures pool[4 * i] == WordByte(w, 0) && pool[4 * i + 1] == WordByte(w, 1)
      ensures pool[4 * i + 2] == WordByte(w, 2) && pool[4 * i + 3] == WordByte(w, 3)
      ensures forall j | 0 <= j < POOL_SIZE && !(4 * i <= j < 4 * i + 4) :: pool[j] == old(pool[j])
    {
      pool[4 * i] := WordByte(w, 0);
      pool[4 * i + 1] := WordByte(w, 1);
      pool[4 * i + 2] := WordByte(w, 2);
      pool[4 * i + 3] := WordByte(w, 3);
    }

    /** CPU read of buffer word i. */
    function ReadWord(i: nat): bv32
      requires Shape() && i < 8
      reads pool
    {
      pool[4 * i] as bv32 | (pool[4 * i + 1] as bv32 << 8)
      | (pool[4 * i + 2] as bv32 << 16) | (pool[4 * i + 3] as bv32 << 24)
    }

    /** The bytes a transmit command sends. */
    function Outgoing(mode: bv32, dma: array?<bv8>): seq<bv8>
      requires Shape()
      requires mode == TX_DMA_EN ==> dma != null && dmaTxLen < dma.Length
      requires mode == TX_BUFF_EN ==> txCount < POOL_SIZE
      reads this, pool, dma
    {
      if mode == TX_DMA_EN then dma[..dmaTxLen + 1]
      else if mode == TX_BUFF_EN then pool[..txCount + 1]
      else [txByte]
    }

    /** Issue a transmit command and wait for it to complete or fail.  A failing command
      * stops after some of its events. */
    method IssueTx(cmd: bv32, dma: array?<bv8>) returns (f: Option<Fault>)
      requires Shape()
      requires cmd & (TX_BUFF_EN | TX_DMA_EN) == TX_DMA_EN ==> dma != null && dmaTxLen < dma.Length
      requires cmd & (TX_BUFF_EN | TX_DMA_EN) == TX_BUFF_EN ==> txCount < POOL_SIZE
      modifies `trace, `commands
      ensures commands == old(commands) + 1 && f == fault(old(commands))
      ensures
        var events := Opening(cmd) + SentAll(old(Outgoing(cmd & (TX_BUFF_EN | TX_DMA_EN), dma))) + Closing(cmd);
        && (f.None? ==> trace == old(trace) + events)
        && old(trace) <= trace <= old(trace) + events
    {
      f := fault(commands);
      var events := Opening(cmd) + SentAll(Outgoing(cmd & (TX_BUFF_EN | TX_DMA_EN), dma)) + Closing(cmd);
      trace := trace + (if f.None? then events else events[..Min(cut(commands), |events|)]);
      commands := commands + 1;
    }

    /** How many bytes a receive command takes in. */
    function RxLength(mode: bv32): nat
      reads this
    {
      if mode == RX_DMA_EN then dmaRxLen + 1 else if mode == RX_BUFF_EN then rxSize + 1 else 1
    }

    /** Issue a receive command.  What a failing command leaves in the buffers is unknown,
      * so it is not described. */
    method IssueRx(cmd: bv32, dma: array?<bv8>) returns (f: Option<Fault>)
      requires Shape() && dma != pool
      requires cmd & (RX_BUFF_EN | RX_DMA_EN) == RX_DMA_EN ==> dma != null && dmaRxLen < dma.Length
      requires cmd & (RX_BUFF_EN | RX_DMA_EN) == RX_BUFF_EN ==> rxSize < POOL_SIZE
      modifies `trace, `commands, `received, `rxByte, pool, dma
      ensures commands == old(commands) + 1 && f == fault(old(commands))
      ensures
        var mode := cmd & (RX_BUFF_EN | RX_DMA_EN);
        var data := old(Incoming(RxLength(mode)));
        var events := Opening(cmd) + ReceivedAll(data, cmd & RX_CMD_LAST != 0) + Closing(cmd);
        && (f.None? ==> trace == old(trace) + events && received == old(received) + |data|)
        && (f.None? && mode == RX_DMA_EN ==> dma[..] == Splice(old(dma[..]), 0, data))
        && (f.None? && mode == RX_BUFF_EN ==> pool[..] == Splice(old(pool[..]), 0, data))
        && (f.None? && mode != RX_DMA_EN && mode != RX_BUFF_EN ==> rxByte == data[0])
        && old(trace) <= trace <= old(trace) + events
    {
      f := fault(commands);
      var mode := cmd & (RX_BUFF_EN | RX_DMA_EN);
      var data := Incoming(RxLength(mode));
      var events := Opening(cmd) + ReceivedAll(data, cmd & RX_CMD_LAST != 0) + Closing(cmd);
      if f.None? {
        if mode == RX_DMA_EN {
          CopyInto(dma, 0, data);
        } else if mode == RX_BUFF_EN {
          CopyInto(pool, 0, data);
        } else {
          rxByte := data[0];
        }
        received := received + |data|;
        trace := trace + events;
      } else {
        trace := trace + events[..Min(cut(commands), |events|)];
      }
      commands := commands + 1;
    }
  }

  /** Byte j of a word. */
  function WordByte(w: bv32, j: nat): bv8 {
    if j == 0 then (w & 0xFF) as bv8
    else if j == 1 then ((w >> 8) & 0xFF) as bv8
    else if j == 2 then ((w >> 16) & 0xFF) as bv8
    else ((w >> 24) & 0xFF) as bv8
  }
}
