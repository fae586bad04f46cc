/** Timing calibration of the SPI flash controllers: a sweep over clock divisors and delays,
  * and the search for the middle of the widest passing window
  * (src/spi/util.rs, src/spi/spicontroller.rs). */
module SpiCalibration {
  import opened Bits
  import opened Bytes

  const HCYCLES: nat := 6
  const DELAYS: nat := 16
  const ROW: nat := 17
  const MIN_RUN: nat := 4

  // ---- the longest run of ones

  /** The n entries from s on are 1. */
  predicate Run(buf: seq<nat>, s: nat, n: nat) {
    s + n <= |buf| && forall k | s <= k < s + n :: buf[k] == 1
  }

  /** The n entries from s on are the first of the longest runs in the first m entries. */
  ghost predicate FirstLongest(buf: seq<nat>, m: nat, s: nat, n: nat) {
    && m <= |buf| && s + n <= m && Run(buf, s, n)
    && (forall s': nat, n': nat :: Run(buf, s', n') && s' + n' <= m ==> n' <= n)
    && (forall s': nat :: n > 0 && Run(buf, s', n) && s' + n <= m ==> s <= s')
  }

  /** Where the search puts the middle of a run: one lower when a separator precedes it. */
  function Middle(s: nat, n: nat): int {
    if s == 0 then n / 2 else s - 1 + n / 2
  }

  /** Entry r lies in the first longest run, of at least four. */
  ghost predicate InFirstLongest(buf: seq<nat>, r: int) {
    exists s: nat, n: nat :: FirstLongest(buf, |buf|, s, n) && n >= MIN_RUN && s <= r < s + n && r == Middle(s, n)
  }

  /** Extending the buffer by one entry: either the run that ends there is a new longest one,
    * or the longest run stays. */
  lemma LongestExtends(buf: seq<nat>, i: nat, cnt: nat, s: nat, n: nat)
    requires i < |buf| && FirstLongest(buf, i, s, n) && cnt <= i + 1
    requires Run(buf, i + 1 - cnt, cnt) && (cnt <= i ==> buf[i - cnt] != 1)
    ensures if cnt > n then FirstLongest(buf, i + 1, i + 1 - cnt, cnt) else FirstLongest(buf, i + 1, s, n)
  {
    forall s': nat, n': nat | Run(buf, s', n') && s' + n' <= i + 1
      ensures n' <= Max(cnt, n)
      ensures s' + n' == i + 1 ==> n' <= cnt
    {
    }
  }

  /** The middle of the first longest run of ones, or -1 if none has four. */
  method GetMidPointOfLongestOne(buf: seq<nat>) returns (r: int, ghost s: nat, ghost n: nat)
    ensures FirstLongest(buf, |buf|, s, n)
    ensures n < 4 ==> r == -1
    ensures n >= MIN_RUN ==> r == Middle(s, n) && s <= r < s + n
    ensures r == -1 <==> forall k: nat :: !Run(buf, k, 4)
    ensures n >= MIN_RUN ==> r == (if s == 0 then n / 2 else s - 1 + n / 2) && -2 <= (r - s) - (s + n - 1 - r) <= 1
    ensures r != -1 ==> InFirstLongest(buf, r)
  {
    var start, midPoint, maxCnt, cnt := 0, 0, 0, 0;
    s, n := 0, 0;
    for i := 0 to |buf|
      invariant cnt <= i && Run(buf, i - cnt, cnt) && (cnt < i ==> buf[i - cnt - 1] != 1)
      invariant start == if cnt == i then 0 else i - cnt - 1
      invariant FirstLongest(buf, i, s, n) && n == maxCnt && (n > 0 ==> midPoint == Middle(s, n))
    {
      if buf[i] == 1 {
        cnt := cnt + 1;
      } else {
        cnt := 0;
        start := i;
      }
      LongestExtends(buf, i, cnt, s, n);
      if cnt > maxCnt {
        maxCnt := cnt;
        midPoint := start + cnt / 2;
        s, n := i + 1 - cnt, cnt;
      }
    }
    r := if maxCnt < MIN_RUN then -1 else midPoint;
    assert n >= MIN_RUN ==> Run(buf, s, MIN_RUN);
  }

  // ---- the matrix

  /** One row per hcycle; the column behind the delays is never set. */
  predicate IsMatrix(m: seq<nat>) {
    && |m| == HCYCLES * ROW
    && forall h | 0 <= h < HCYCLES :: m[h * ROW + DELAYS] == 0
  }

  /** A run of ones never crosses from one row to the next. */
  lemma RunInRow(m: seq<nat>, s: nat, n: nat, p: nat)
    requires IsMatrix(m) && Run(m, s, n) && s <= p < s + n
    ensures p / ROW < HCYCLES && p % ROW < DELAYS
    ensures p / ROW * ROW <= s && s + n <= p / ROW * ROW + DELAYS
  {
    var h := p / ROW;
    assert m[h * ROW + DELAYS] == 0;
    if h > 0 {
      assert m[(h - 1) * ROW + DELAYS] == 0;
    }
  }

  datatype Point = Point(hcycle: nat, delay: nat)

  /** The entry at a row and a delay. */
  function Entry(m: seq<nat>, h: nat, d: nat): nat
    requires |m| == HCYCLES * ROW && h < HCYCLES && d < DELAYS
  {
    m[h * ROW + d]
  }

  /** A window of n passing delays in a row. */
  predicate Window(m: seq<nat>, h: nat, d: nat, n: nat)
    requires |m| == HCYCLES * ROW
  {
    h < HCYCLES && d + n <= DELAYS && forall k | d <= k < d + n :: Entry(m, h, k) == 1
  }

  lemma WindowIsRun(m: seq<nat>, h: nat, d: nat, n: nat)
    requires |m| == HCYCLES * ROW && Window(m, h, d, n)
    ensures Run(m, h * ROW + d, n)
  {
    forall k | h * ROW + d <= k < h * ROW + d + n
      ensures m[k] == 1
    {
      assert Entry(m, h, k - h * ROW) == 1;
    }
  }

  /** A point inside a longest window of at least four passing delays; None if there is no
    * such window. */
  ghost predicate IsBest(m: seq<nat>, r: Option<Point>)
    requires |m| == HCYCLES * ROW
  {
    match r
    case None => forall h: nat, d: nat :: !Window(m, h, d, MIN_RUN)
    case Some(p) => exists d: nat, n: nat :: InLongest(m, p, d, n)
  }

  ghost predicate InLongest(m: seq<nat>, p: Point, d: nat, n: nat)
    requires |m| == HCYCLES * ROW
  {
    && n >= MIN_RUN && Window(m, p.hcycle, d, n) && d <= p.delay < d + n
    && forall h': nat, d': nat, n': nat :: Window(m, h', d', n') ==> n' <= n
  }

  /** The point is the middle of the first longest run of the matrix. */
  ghost predicate IsMiddle(m: seq<nat>, p: Point) {
    exists s: nat, n: nat :: FirstLongest(m, |m|, s, n) && p.hcycle * ROW + p.delay == Middle(s, n)
  }

  method PickBestDelay(m: seq<nat>) returns (r: Option<Point>)
    requires IsMatrix(m)
    ensures IsBest(m, r)
    ensures r.Some? ==> IsMiddle(m, r.value)
  {
    var point, s, n := GetMidPointOfLongestOne(m);
    forall h: nat, d: nat, n': nat | Window(m, h, d, n')
      ensures n' <= n
    {
      WindowIsRun(m, h, d, n');
    }
    if point < 0 {
      r := None;
    } else {
      RunInRow(m, s, n, point);
      r := Some(Point(point / ROW, point % ROW));
      assert InLongest(m, r.value, s - point / ROW * ROW, n);
      assert r.value.hcycle * ROW + r.value.delay == Middle(s, n);
    }
  }

  // ---- what is tested and what is written

  /** The delay setting under test; the clock mask is mixed in. */
  function Tested(mask: nat, h: nat, d: nat): nat {
    Or(Or(Or(mask, 8), h), Shl(d, 4))
  }

  /** The delay setting that is written in the end, in the byte of its clock divisor. */
  function Written(h: nat, d: nat): nat {
    Or(Or(8, h), Shl(d, 4))
  }

  function Mask(i: nat): nat
    requires i < 4
  {
    if i == 0 then 7 else if i == 1 then 14 else if i == 2 then 6 else 13
  }

  lemma DelaySplits(x: nat, d: nat)
    requires x < 16
    ensures Or(x, Shl(d, 4)) == x + 16 * d
  {
    Pow2Values();
    ShlIsMul(d, 4);
    ModMultiple(d, 16);
    OrDisjoint(d * 16, x, 4);
  }

  /** What was tested is what is written only for the last divisor and five cycles: the mask
    * sets cycle bits that the written value does not have. */
  lemma TestedIsWritten(i: nat, h: nat, d: nat)
    requires i < 4 && h < HCYCLES && d < DELAYS
    ensures Tested(Mask(i), h, d) == Written(h, d) <==> i == 3 && h == 5
  {
    LowNibble(i, h);
    DelaySplits(Or(Or(Mask(i), 8), h), d);
    DelaySplits(Or(8, h), d);
  }

  lemma LowNibble(i: nat, h: nat)
    requires i < 4 && h < HCYCLES
    ensures Or(Or(Mask(i), 8), h) < 16 && Or(8, h) == 8 + h
    ensures Or(Or(Mask(i), 8), h) == Or(8, h) <==> i == 3 && h == 5
    ensures Or(Or(Mask(i), 8), h)
      == if i == 0 then 15 else if i == 3 then (if h == 2 || h == 3 then 15 else 13) else 14 + h % 2
  {
    Pow2Values();
    OrDisjoint(8, h, 3);
    assert Or(Mask(i), 8) == if i == 0 then 15 else if i == 3 then 13 else 14 by {
      assert Or(7, 8) == 15;
      assert Or(14, 8) == 14 && Or(6, 8) == 14;
      assert Or(13, 8) == 13;
    }
    if i == 0 { Or15(h); } else if i == 3 { Or13(h); } else { Or14(h); }
  }

  lemma Or15(h: nat)
    requires h < HCYCLES
    ensures Or(15, h) == 15
  {
    assert Or(15, 0) == 15 && Or(15, 1) == 15 && Or(15, 2) == 15;
    assert Or(15, 3) == 15 && Or(15, 4) == 15 && Or(15, 5) == 15;
  }

  lemma Or14(h: nat)
    requires h < HCYCLES
    ensures Or(14, h) == 14 + h % 2
  {
    assert Or(14, 0) == 14 && Or(14, 1) == 15 && Or(14, 2) == 14;
    assert Or(14, 3) == 15 && Or(14, 4) == 14 && Or(14, 5) == 15;
  }

  lemma Or13(h: nat)
    requires h < HCYCLES
    ensures Or(13, h) == if h == 2 || h == 3 then 15 else 13
  {
    assert Or(13, 0) == 13 && Or(13, 1) == 13 && Or(13, 2) == 15;
    assert Or(13, 3) == 15 && Or(13, 4) == 13 && Or(13, 5) == 13;
  }

  /** The two values in full: the mask covers the cycle count for the first divisor, and part of it
    * for the others. */
  lemma SettingsAre(i: nat, h: nat, d: nat)
    requires i < 4 && h < HCYCLES && d < DELAYS
    ensures Written(h, d) == 8 + h + 16 * d
    ensures Tested(Mask(i), h, d) == 16 * d +
      if i == 0 then 15 else if i == 3 then (if h == 2 || h == 3 then 15 else 13) else 14 + h % 2
  {
    LowNibble(i, h);
    DelaySplits(Or(Or(Mask(i), 8), h), d);
    DelaySplits(Or(8, h), d);
  }

  /** With the first divisor every cycle count is the same test. */
  lemma FirstDivisorIgnoresCycles(h: nat, h': nat, d: nat)
    requires h < HCYCLES && h' < HCYCLES
    ensures Tested(Mask(0), h, d) == Tested(Mask(0), h', d)
  {
    LowNibble(0, h);
    LowNibble(0, h');
  }

  // ---- the sweep

  datatype Setting = Setting(index: nat, point: Point, frequency: nat)

  class Sweep {
    const checksum: (nat, nat) -> u32   // the DMA checksum under a clock mask and a delay
    const hclk: u32
    const frequency: u32
    const flashAddr: u32                // where the flash data for the checksum starts
    const calibRes: array<nat>
    var spi084: nat                     // the flash address of the DMA
    var spi094: nat                     // not 0: chip select 0 is taken as calibrated
    var spi098: nat                     // the same for chip select 1
    var clock: nat

    predicate Valid() { calibRes.Length == HCYCLES * ROW }

    constructor (checksum: (nat, nat) -> u32, hclk: u32, frequency: u32, flashAddr: u32, spi094: nat, spi098: nat)
      ensures Valid() && fresh(calibRes)
      ensures this.checksum == checksum && this.hclk == hclk && this.frequency == frequency
      ensures this.flashAddr == flashAddr && this.spi094 == spi094 && this.spi098 == spi098
    {
      this.checksum, this.hclk, this.frequency := checksum, hclk, frequency;
      this.flashAddr, this.spi094, this.spi098 := flashAddr, spi094, spi098;
      calibRes := new nat[HCYCLES * ROW](_ => 0);
      spi084, clock := 0, frequency;
    }

    /** The checksum of the flash data under a clock mask and a delay. */
    method DmaChecksum(mask: nat, delay: nat) returns (sum: u32)
      modifies `spi084
      ensures sum == checksum(mask, delay) && spi084 == flashAddr
    {
      spi084 := flashAddr;
      sum := checksum(mask, delay);
    }

    /** The flash reads correctly with divisor i, h cycles and delay d. */
    predicate Passes(gold: u32, i: nat, h: nat, d: nat)
      requires i < 4
    {
      checksum(Mask(i), Tested(Mask(i), h, d)) == gold
    }

    /** What belongs in entry k of the matrix. */
    function Result(gold: u32, i: nat, k: nat): nat
      requires i < 4
    {
      if k % ROW < DELAYS && Passes(gold, i, k / ROW, k % ROW) then 1 else 0
    }

    /** The matrix holds the results of divisor i up to entry n. */
    ghost predicate MeasuredTo(gold: u32, i: nat, n: nat)
      requires Valid() && i < 4
      reads calibRes
    {
      forall k | 0 <= k < calibRes.Length :: calibRes[k] == if k < n then Result(gold, i, k) else 0
    }

    method MeasureRow(gold: u32, i: nat, h: nat)
      requires Valid() && i < 4 && h < HCYCLES && MeasuredTo(gold, i, h * ROW)
      modifies calibRes, `spi084
      ensures MeasuredTo(gold, i, h * ROW + ROW) && spi084 == flashAddr
    {
      for d := 0 to DELAYS
        invariant MeasuredTo(gold, i, h * ROW + d) && (d > 0 ==> spi084 == flashAddr)
      {
        var sum := DmaChecksum(Mask(i), Tested(Mask(i), h, d));
        EntryIndex(h, d);
        calibRes[h * ROW + d] := if sum == gold then 1 else 0;
      }
      EntryIndex(h, DELAYS);
    }

    lemma EntryIndex(h: nat, d: nat)
      requires d < ROW
      ensures (h * ROW + d) / ROW == h && (h * ROW + d) % ROW == d
    {
    }

    method Measure(gold: u32, i: nat)
      requires Valid() && i < 4
      modifies calibRes, `spi084
      ensures MeasuredTo(gold, i, HCYCLES * ROW) && spi084 == flashAddr
    {
      FillRange(calibRes, 0, HCYCLES * ROW, 0);
      for h := 0 to HCYCLES
        invariant MeasuredTo(gold, i, h * ROW) && (h > 0 ==> spi084 == flashAddr)
      {
        MeasureRow(gold, i, h);
      }
    }

    lemma MeasuredIsMatrix(gold: u32, i: nat)
      requires Valid() && i < 4 && MeasuredTo(gold, i, HCYCLES * ROW)
      ensures IsMatrix(calibRes[..])
    {
      forall h: nat | h < HCYCLES
        ensures calibRes[h * ROW + DELAYS] == 0
      {
        EntryIndex(h, DELAYS);
      }
    }

    /** The divisor is slow enough for the configured frequency. */
    predicate Considered(i: nat)
    {
      frequency >= hclk / (i + 2)
    }

    predicate AnyConsidered(n: nat)
    {
      exists i: nat :: i < n && Considered(i)
    }

    /** Among the delays of divisor i, a passing window of four. */
    ghost predicate HasWindow(gold: u32, i: nat)
      requires i < 4
    {
      exists h: nat, d: nat :: PassingWindow(gold, i, h, d, MIN_RUN)
    }

    ghost predicate PassingWindow(gold: u32, i: nat, h: nat, d: nat, n: nat)
      requires i < 4
    {
      h < HCYCLES && d + n <= DELAYS && forall k: nat | d <= k < d + n :: Passes(gold, i, h, k)
    }

    lemma WindowsPass(gold: u32, i: nat, h: nat, d: nat, n: nat)
      requires Valid() && i < 4 && MeasuredTo(gold, i, HCYCLES * ROW)
      ensures Window(calibRes[..], h, d, n) <==> PassingWindow(gold, i, h, d, n)
    {
      if h < HCYCLES && d + n <= DELAYS {
        forall k: nat | d <= k < d + n
          ensures Entry(calibRes[..], h, k) == 1 <==> Passes(gold, i, h, k)
        {
          EntryIndex(h, k);
        }
      }
    }

    /** The chosen point passes, in the middle of a window of four or more. */
    ghost predicate GoodChoice(gold: u32, i: nat, p: Point)
      requires i < 4
    {
      && p.hcycle < HCYCLES && p.delay < DELAYS && Passes(gold, i, p.hcycle, p.delay)
      && exists d: nat, n: nat :: InWidest(gold, i, p, d, n)
    }

    /** The point lies in a widest passing window of divisor i. */
    ghost predicate InWidest(gold: u32, i: nat, p: Point, d: nat, n: nat)
      requires i < 4
    {
      && PassingWindow(gold, i, p.hcycle, d, n) && n >= MIN_RUN && d <= p.delay < d + n
      && forall h': nat, d': nat, n': nat :: PassingWindow(gold, i, h', d', n') ==> n' <= n
    }

    /** The frequency that the next divisor is compared with. */
    predicate FrequencyTracks(i: nat, freqToUse: nat) {
      freqToUse == frequency || (i > 0 && Considered(i - 1) && freqToUse == hclk / (i + 1))
    }

    /** Comparing with the last frequency tried or with the configured one makes no
      * difference. */
    lemma StillConsidered(i: nat, freqToUse: nat)
      requires FrequencyTracks(i, freqToUse)
      ensures freqToUse >= hclk / (i + 2) <==> Considered(i)
      ensures Considered(i) ==> FrequencyTracks(i + 1, hclk / (i + 2))
      ensures !Considered(i) ==> FrequencyTracks(i + 1, freqToUse)
    {
      var m := hclk / (i + 1);
      DivAtMost(hclk, i + 1, m);
      MulMono(i + 1, i + 2, m + 1);
      DivAtMost(hclk, i + 2, m);
    }

    /** Try the divisors from fast to slow; the first with a wide enough window wins. The delay
      * goes where every checksum puts its flash address, and spi094 and spi098 keep
      * their values. */
    method RunTimingSweep(gold: u32) returns (r: Option<Setting>)
      requires Valid()
      modifies calibRes, `spi084, `clock
      ensures r.None? <==> forall i: nat | i < 4 && Considered(i) :: !HasWindow(gold, i)
      ensures r.None? ==> clock == old(clock)
      ensures r.None? ==> spi084 == if AnyConsidered(4) then flashAddr else old(spi084)
      ensures r.Some? ==> var i := r.value.index;
        && i < 4 && Considered(i) && GoodChoice(gold, i, r.value.point)
        && MeasuredTo(gold, i, HCYCLES * ROW) && IsMiddle(calibRes[..], r.value.point)
        && (forall j: nat | j < i && Considered(j) :: !HasWindow(gold, j))
        && spi084 == Shl(Written(r.value.point.hcycle, r.value.point.delay), 8 * i)
        && clock == r.value.frequency == hclk / (i + 2) <= frequency
    {
      var freqToUse: nat := frequency;
      for i := 0 to 4
        invariant FrequencyTracks(i, freqToUse)
        invariant forall j: nat | j < i && Considered(j) :: !HasWindow(gold, j)
        invariant clock == old(clock)
        invariant spi084 == if AnyConsidered(i) then flashAddr else old(spi084)
      {
        var div := i + 2;
        StillConsidered(i, freqToUse);
        if freqToUse < hclk / div {
          continue;
        }
        freqToUse := hclk / div;
        var _ := DmaChecksum(Mask(i), 0);
        var point := TryDivisor(gold, i);
        if point.Some? {
          spi084 := Shl(Written(point.value.hcycle, point.value.delay), 8 * i);
          clock := freqToUse;
          return Some(Setting(i, point.value, freqToUse));
        }
      }
      r := None;
    }

    /** The register that is to say that a chip select is calibrated. */
    function Mark(cs: nat): nat
      reads this
    {
      if cs == 0 then spi094 else spi098
    }

    /** The driver goes on to look at the flash data. */
    predicate Calibrates(disabled: bool, masterIdx: nat, cs: nat)
      reads this
    {
      !disabled && cs < 2 && Mark(cs) == 0 && (masterIdx == 0 || cs == 0)
    }

    /** Skipping sets the clock to the configured frequency, except for a chip select that there
      * is not. */
    method SkipCalibration(disabled: bool, masterIdx: nat, cs: nat) returns (skip: bool)
      modifies `clock
      ensures skip <==> !Calibrates(disabled, masterIdx, cs)
      ensures skip <==>
        (disabled || cs >= 2 || (cs == 0 && spi094 != 0) || (cs == 1 && spi098 != 0) || (masterIdx != 0 && cs == 1))
      ensures clock == if skip && (disabled || cs < 2) then frequency else old(clock)
    {
      skip := true;
      if disabled {
        clock := frequency;
        return;
      }
      if cs >= 2 {
        return;
      }
      if Mark(cs) != 0 || (masterIdx != 0 && cs != 0) {
        clock := frequency;
        return;
      }
      skip := false;
    }

    /** No sweep changes spi094 or spi098, so a chip select that was calibrated is swept again by
      * the next call. */
    method TimingCalibration(disabled: bool, masterIdx: nat, cs: nat, monotonous: bool)
      returns (swept: bool, ghost found: Option<Setting>)
      requires Valid()
      modifies calibRes, `spi084, `clock
      ensures swept <==> Calibrates(disabled, masterIdx, cs) && !monotonous
      ensures Calibrates(disabled, masterIdx, cs) == old(Calibrates(disabled, masterIdx, cs))
      ensures !swept ==> clock == (if disabled || cs < 2 then frequency else old(clock)) && spi084 == old(spi084)
      ensures swept ==> clock == if found.Some? then found.value.frequency else frequency
      ensures swept && found.None? ==> forall i: nat | i < 4 && Considered(i) :: !HasWindow(checksum(0, 0), i)
      ensures swept && found.Some? ==> IsFirstChoice(checksum(0, 0), found.value)
    {
      found := None;
      var skip := SkipCalibration(disabled, masterIdx, cs);
      if skip {
        return false, found;
      }
      if monotonous {
        clock := frequency;
        return false, found;
      }
      var gold := DmaChecksum(0, 0);
      var r := RunTimingSweep(gold);
      found := r;
      if r.None? {
        clock := frequency;
      }
      swept := true;
    }

    /** The first divisor with a wide enough window, and a good point of it; what was read without
      * mask and delay is the reference. */
    ghost predicate IsFirstChoice(gold: u32, s: Setting) {
      && s.index < 4 && Considered(s.index) && GoodChoice(gold, s.index, s.point)
      && s.frequency == hclk / (s.index + 2)
      && forall j: nat | j < s.index && Considered(j) :: !HasWindow(gold, j)
    }

    method TryDivisor(gold: u32, i: nat) returns (p: Option<Point>)
      requires Valid() && i < 4
      modifies calibRes, `spi084
      ensures spi084 == flashAddr
      ensures p.None? <==> !HasWindow(gold, i)
      ensures p.Some? ==> GoodChoice(gold, i, p.value)
      ensures p.Some? ==> MeasuredTo(gold, i, HCYCLES * ROW) && IsMiddle(calibRes[..], p.value)
    {
      Measure(gold, i);
      MeasuredIsMatrix(gold, i);
      p := PickBestDelay(calibRes[..]);
      BestIsGood(gold, i, p);
    }

    lemma BestIsGood(gold: u32, i: nat, p: Option<Point>)
      requires Valid() && i < 4 && MeasuredTo(gold, i, HCYCLES * ROW) && IsBest(calibRes[..], p)
      ensures p.None? <==> !HasWindow(gold, i)
      ensures p.Some? ==> GoodChoice(gold, i, p.value)
    {
      forall h: nat, d: nat, n: nat
        ensures Window(calibRes[..], h, d, n) <==> PassingWindow(gold, i, h, d, n)
      {
        WindowsPass(gold, i, h, d, n);
      }
      if p.Some? {
        var d: nat, n: nat :| InLongest(calibRes[..], p.value, d, n);
        assert InWidest(gold, i, p.value, d, n);
        assert PassingWindow(gold, i, p.value.hcycle, d, MIN_RUN);
      }
    }
  }
}
