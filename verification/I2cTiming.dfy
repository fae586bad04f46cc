/** Choosing the I2C clock divider (src/i2c_core/timing.rs). */
module I2cTiming {
  import opened Bits
  import opened Bytes

  const MAX_DIVIDER_RATIO: nat := 32

  datatype Speed = Standard | Fast | FastPlus {
    function Hertz(): (hz: u32)
      ensures 100_000 <= hz <= 1_000_000
    {
      match this
      case Standard => 100_000
      case Fast => 400_000
      case FastPlus => 1_000_000
    }
  }

  /** The clocks in the order in which they are tried; the last is the fallback. */
  datatype ClockConfig = ClockConfig(apb: u32, base1: u32, base2: u32, base3: u32, base4: u32) {
    function Candidate(i: nat): u32
      requires i < 4
    {
      if i == 0 then apb else if i == 1 then base1 else if i == 2 then base2 else base3
    }
  }

  datatype Divider = Divider(div: nat, ratio: nat)

  // ---- what is asked of a ratio

  /** ratio is the least that keeps base / ratio at or below the target. */
  ghost predicate IsLeastRatio(base: nat, target: nat, ratio: nat) {
    && ratio > 0 && base / ratio <= target
    && forall r | 0 < r < ratio :: base / r > target
  }

  predicate Usable(base: nat, target: nat)
    requires target > 0
  {
    base != 0 && base / target <= MAX_DIVIDER_RATIO
  }

  /** ceil(n / 2^k), halving and rounding up k times. */
  function CeilShr(n: nat, k: nat): nat {
    if k == 0 then n else (CeilShr(n, k - 1) + 1) / 2
  }

  /** CeilShr(n, k) is the least c with n <= c * 2^k. */
  lemma {:induction false} CeilShrIs(n: nat, k: nat, c: nat)
    ensures CeilShr(n, k) <= c <==> n <= Shl(c, k)
  {
    if k > 0 {
      CeilShrIs(n, k - 1, 2 * c);
      ShlOut(c, k);
    }
  }

  lemma {:induction false} ShlOut(x: nat, k: nat)
    requires k > 0
    ensures Shl(x, k) == Shl(2 * x, k - 1)
  {
    if k > 1 { ShlOut(x, k - 1); }
  }

  /** The fallback shifts at most 11 times, so its divider code fits four bits, exactly
    * when the first ratio is at most 2^16. */
  lemma ShiftBound(n: nat, k: nat)
    requires CeilShr(n, k) <= MAX_DIVIDER_RATIO
    requires forall j: nat | j < k :: CeilShr(n, j) > MAX_DIVIDER_RATIO
    ensures 4 + k <= 15 <==> n <= 0x1_0000
  {
    CeilShrIs(n, 11, 32);
    assert Shl(32, 11) == 0x1_0000 by {
      assert Shl(32, 4) == 512;
      assert Shl(32, 8) == 0x2000;
    }
    if k <= 11 {
      CeilShrMono(n, k, 11);
    }
  }

  lemma {:induction false} CeilShrMono(n: nat, j: nat, k: nat)
    requires j <= k
    ensures CeilShr(n, k) <= CeilShr(n, j)
    decreases k - j
  {
    if j < k { CeilShrMono(n, j, k - 1); }
  }

  // ---- division

  lemma ProductGap(q: nat, r: nat, target: nat)
    requires r < q && r <= target
    ensures r * (target + 1) <= q * target
  {
    MulMono(r + 1, q, target);
    assert r * (target + 1) == r * target + r;
    assert (r + 1) * target == r * target + target;
  }

  /** Below base / target no ratio will do; base / target or the next one does. */
  lemma RatioAround(base: nat, target: nat, q: nat)
    requires target > 0 && q == base / target
    ensures base / (q + 1) <= target
    ensures q <= target + 1 ==> forall r | 0 < r < q :: base / r > target
  {
    DivAtMost(base, target, q);
    assert base < (q + 1) * (target + 1);
    DivAtMost(base, q + 1, target);
    if q <= target + 1 {
      forall r | 0 < r < q
        ensures base / r > target
      {
        ProductGap(q, r, target);
        assert q * target <= base;
        DivAtMost(base, r, target);
      }
    }
  }

  // ---- the operations

  /** Round base / target up to a ratio of at least 1 that does not exceed the target. */
  function RoundUp(base: nat, target: nat, ratio: nat): nat {
    if ratio > 0 && base / ratio > target then ratio + 1 else ratio
  }

  lemma RoundUpIsLeast(base: nat, target: nat)
    requires target >= MAX_DIVIDER_RATIO && base / target <= MAX_DIVIDER_RATIO
    ensures var q := RoundUp(base, target, base / target);
      && q <= MAX_DIVIDER_RATIO + 1
      && IsLeastRatio(base, target, Max(q, 1))
  {
    RatioAround(base, target, base / target);
    if base / target == 0 {
      DivAtMost(base, target, 0);
    }
  }

  /** The base clock and divider for a target speed; None is the error Invalid.  A clock
    * that is one of the first four is the first usable one and gets the least ratio. */
  method CalculateDivider(clocks: ClockConfig, target: u32) returns (r: Option<Divider>, ghost shift: nat)
    ensures r.None? <==>
      target == 0 || (clocks.base4 == 0 && forall i: nat | i < 4 :: !Usable(clocks.Candidate(i), target))
    ensures target > 0 && (exists i: nat :: i < 4 && Usable(clocks.Candidate(i), target)) ==>
      && r.Some? && r.value.div < 4 && Usable(clocks.Candidate(r.value.div), target)
      && (forall j: nat | j < r.value.div :: !Usable(clocks.Candidate(j), target))
      && (target >= MAX_DIVIDER_RATIO ==>
        && r.value.ratio <= MAX_DIVIDER_RATIO + 1
        && IsLeastRatio(clocks.Candidate(r.value.div), target, r.value.ratio))
    ensures target > 0 && clocks.base4 > 0 && (forall i: nat | i < 4 :: !Usable(clocks.Candidate(i), target)) ==>
      r.Some? && FellBack(clocks.base4, target, shift, r.value)
  {
    shift := 0;
    if target == 0 {
      return None, shift;
    }
    for i := 0 to 4
      invariant forall j: nat | j < i :: !Usable(clocks.Candidate(j), target)
    {
      var base := clocks.Candidate(i);
      if base == 0 {
        continue;
      }
      if base / target <= MAX_DIVIDER_RATIO {
        var ratio := RoundUp(base, target, base / target);
        if ratio == 0 {
          ratio := 1;
        }
        if target >= MAX_DIVIDER_RATIO {
          RoundUpIsLeast(base, target);
        }
        return Some(Divider(i, ratio)), shift;
      }
    }
    if clocks.base4 == 0 {
      return None, shift;
    }
    var d;
    d, shift := FallBack(clocks.base4, target);
    r := Some(d);
  }

  /** What the extended divider of the fallback clock comes to: the first ratio is halved,
    * rounding up, as often as it takes to fit.  Whenever it was halved, the comparison
    * afterwards is against the unhalved clock, so the ratio grows by one more. */
  ghost predicate FellBack(base: nat, target: nat, shift: nat, d: Divider)
    requires target > 0
  {
    var c := CeilShr(base / target, shift);
    && c <= MAX_DIVIDER_RATIO
    && (forall j: nat | j < shift :: CeilShr(base / target, j) > MAX_DIVIDER_RATIO)
    && d.div == (4 + shift) % 16 && 1 <= d.ratio <= MAX_DIVIDER_RATIO
    && (target >= MAX_DIVIDER_RATIO && shift > 0 ==> d.ratio == Min(c + 1, MAX_DIVIDER_RATIO))
    && (target >= MAX_DIVIDER_RATIO && shift == 0 ==>
      exists r: nat :: IsLeastRatio(base, target, r) && d.ratio == Min(r, MAX_DIVIDER_RATIO))
  }

  method FallBack(base: nat, target: nat) returns (d: Divider, ghost shift: nat)
    requires target > 0
    ensures FellBack(base, target, shift, d)
    ensures exists k: nat :: FellBack(base, target, k, d)
  {
    var div, ratio, inc := 4, base / target, 0;
    shift := 0;
    while ratio + inc > MAX_DIVIDER_RATIO
      invariant ratio + inc == CeilShr(base / target, shift) && inc <= 1
      invariant div == 4 + shift && (shift == 0 ==> inc == 0)
      invariant forall j: nat | j < shift :: CeilShr(base / target, j) > MAX_DIVIDER_RATIO
      decreases ratio
    {
      inc := if ratio % 2 == 1 then 1 else inc;
      ratio := ratio / 2;
      div := div + 1;
      shift := shift + 1;
    }
    ratio := ratio + inc;
    if target >= MAX_DIVIDER_RATIO {
      if shift == 0 {
        RoundUpIsLeast(base, target);
        assert IsLeastRatio(base, target, Max(RoundUp(base, target, ratio), 1));
      } else {
        AfterShiftTooFast(base, target, shift);
      }
    }
    ratio := RoundUp(base, target, ratio);
    ratio := Min(ratio, MAX_DIVIDER_RATIO);
    if ratio == 0 {
      ratio := 1;
    }
    d := Divider(div % 16, ratio);
    assert FellBack(base, target, shift, d);
  }

  lemma AfterShiftTooFast(base: nat, target: nat, shift: nat)
    requires target >= MAX_DIVIDER_RATIO && shift > 0
    requires base / target > MAX_DIVIDER_RATIO && CeilShr(base / target, shift) <= MAX_DIVIDER_RATIO
    ensures CeilShr(base / target, shift) > 0
    ensures base / CeilShr(base / target, shift) > target
  {
    var q, c := base / target, CeilShr(base / target, shift);
    CeilShrIs(q, shift, 0);
    ShlZero(shift);
    ProductGap(q, c, target);
    assert q * target <= base;
    DivAtMost(base, c, target);
  }

  lemma {:induction false} ShlZero(k: nat)
    ensures Shl(0, k) == 0
  {
    if k > 0 { ShlZero(k - 1); }
  }

  /** For 32-bit clocks and targets from 2^16 Hz up the divider code is not truncated. */
  lemma FallBackFits(base: u32, target: nat, shift: nat, d: Divider)
    requires target >= 0x1_0000 && FellBack(base, target, shift, d)
    ensures d.div == 4 + shift <= 15
  {
    DivAtMost(base, target, 0x1_0000);
    ShiftBound(base / target, shift);
  }

  lemma {:induction false} ShlGrows(c: nat, k: nat)
    ensures Shl(c, k) < Shl(c + 1, k)
  {
    if k > 0 { ShlGrows(c, k - 1); }
  }

  // ---- low and high time

  function SaturatingSub(a: nat, b: nat): nat { if a < b then 0 else a - b }

  function CalculateSclLow(ratio: nat): nat {
    Min(SaturatingSub(ratio * 9 / 16, 1), 0xF)
  }

  function CalculateSclHigh(ratio: nat, sclLow: nat): nat {
    Min(SaturatingSub(SaturatingSub(ratio, sclLow), 2), 0xF)
  }

  /** The low time, as cycles and not as the register holds them, is the most that is not over
    * 9/16 of the ratio, within 1 and 16. */
  lemma SclLowIs(ratio: nat)
    ensures
      var low := CalculateSclLow(ratio) + 1;
      1 <= low <= 16 && (low > 1 ==> 16 * low <= 9 * ratio) && (low < 16 ==> 9 * ratio < 16 * (low + 1))
  {
  }

  /** Base clock cycles in one SCL period: each register holds its cycles less one. */
  function Period(ratio: nat): nat {
    CalculateSclLow(ratio) + CalculateSclHigh(ratio, CalculateSclLow(ratio)) + 2
  }

  /** The two registers spend exactly the ratio, unless it is out of their range. */
  lemma PeriodIsRatio(ratio: nat)
    ensures Period(ratio) == ratio <==> 2 <= ratio <= MAX_DIVIDER_RATIO
    ensures ratio > MAX_DIVIDER_RATIO ==> Period(ratio) == MAX_DIVIDER_RATIO
    ensures ratio < 2 ==> Period(ratio) == 2
  {
    if ratio <= MAX_DIVIDER_RATIO {
      assert ratio * 9 / 16 <= 18;
    } else {
      assert ratio * 9 / 16 >= 18;
    }
  }

  /** The low time is meant to be the longer one; for three ratios it is not. */
  lemma LowIsLonger(ratio: nat)
    ensures CalculateSclLow(ratio) >= CalculateSclHigh(ratio, CalculateSclLow(ratio)) <==> ratio !in {3, 5, 7}
  {
  }

  /** The AC timing register. */
  datatype AcTiming = AcTiming(div: nat, sclLow: nat, sclHigh: nat, sclHighMin: nat)

  method ConfigureTiming(clocks: ClockConfig, speed: Speed)
    returns (r: Option<AcTiming>, ghost d: Divider, ghost shift: nat)
    ensures r.None? <==>
      clocks.base4 == 0 && forall i: nat | i < 4 :: !Usable(clocks.Candidate(i), speed.Hertz())
    ensures r.Some? ==>
      && r.value.div == d.div <= 15 && r.value.sclLow <= 15 && r.value.sclHigh <= 15
      && r.value.sclHighMin == SaturatingSub(r.value.sclHigh, 1)
      && r.value.sclLow == CalculateSclLow(d.ratio)
      && r.value.sclHigh == CalculateSclHigh(d.ratio, r.value.sclLow)
    ensures r.Some? && d.div < 4 ==>
      && Usable(clocks.Candidate(d.div), speed.Hertz())
      && IsLeastRatio(clocks.Candidate(d.div), speed.Hertz(), d.ratio) && d.ratio <= 33
      && forall j: nat | j < d.div :: !Usable(clocks.Candidate(j), speed.Hertz())
    ensures r.Some? && d.div >= 4 ==>
      && d.div == 4 + shift && FellBack(clocks.base4, speed.Hertz(), shift, d)
      && forall i: nat | i < 4 :: !Usable(clocks.Candidate(i), speed.Hertz())
  {
    var divider;
    divider, shift := CalculateDivider(clocks, speed.Hertz());
    d := if divider.Some? then divider.value else Divider(0, 0);
    if divider.None? {
      return None, d, shift;
    }
    var ratio := divider.value.ratio;
    var sclLow := CalculateSclLow(ratio);
    var sclHigh := CalculateSclHigh(ratio, sclLow);
    if forall i: nat | i < 4 :: !Usable(clocks.Candidate(i), speed.Hertz()) {
      FallBackFits(clocks.base4, speed.Hertz(), shift, d);
    }
    r := Some(AcTiming(divider.value.div % 16, sclLow, sclHigh, SaturatingSub(sclHigh, 1)));
  }

  /** The documented clocks: 50 MHz, and 20, 10 and 2.78 MHz derived from it, give 28, 25 and 20
    * cycles for 100 kHz, 400 kHz and 1 MHz. */
  method DefaultTiming(speed: Speed) returns (r: Option<AcTiming>)
    ensures r == match speed
      case Standard => Some(AcTiming(3, 14, 12, 11))
      case Fast => Some(AcTiming(2, 13, 10, 9))
      case FastPlus => Some(AcTiming(1, 10, 8, 7))
  {
    var clocks := ClockConfig(50_000_000, 20_000_000, 10_000_000, 2_777_777, 1_000_000);
    ghost var d, shift;
    r, d, shift := ConfigureTiming(clocks, speed);
    ghost var i := match speed case Standard => 3 case Fast => 2 case FastPlus => 1;
    DefaultChoice(clocks, speed, i);
    RatioIs(clocks.Candidate(i), speed.Hertz(), d.ratio);
  }

  lemma DefaultChoice(clocks: ClockConfig, speed: Speed, i: nat)
    requires clocks == ClockConfig(50_000_000, 20_000_000, 10_000_000, 2_777_777, 1_000_000)
    requires i == match speed case Standard => 3 case Fast => 2 case FastPlus => 1
    ensures Usable(clocks.Candidate(i), speed.Hertz())
    ensures forall j: nat | j < i :: !Usable(clocks.Candidate(j), speed.Hertz())
  {
  }

  /** A ratio is least when the one below is too small. */
  lemma LeastRatioBounds(base: nat, target: nat, ratio: nat, other: nat)
    requires IsLeastRatio(base, target, ratio) && other > 0
    ensures base / other <= target <==> ratio <= other
  {
    if ratio <= other {
      DivAtMost(base, ratio, target);
      DivAtMost(base, other, target);
      MulMono(ratio, other, target + 1);
    }
  }

  /** With one of the first four clocks the bus runs faster than asked exactly when the
    * rounded ratio is 33: the registers then give a period of 32. */
  lemma BusSpeed(base: nat, target: nat, ratio: nat)
    requires target >= MAX_DIVIDER_RATIO && Usable(base, target) && IsLeastRatio(base, target, ratio)
    ensures base / Period(ratio) <= target <==> base / 32 <= target
    ensures base / 32 > target <==> ratio == 33
  {
    DivAtMost(base, target, 32);
    DivAtMost(base, 33, target);
    LeastRatioBounds(base, target, ratio, 33);
    LeastRatioBounds(base, target, ratio, 32);
    PeriodIsRatio(ratio);
    LeastRatioBounds(base, target, ratio, Period(ratio));
  }

  /** The least ratio is the quotient, or one more if the rest is at least the quotient: then
    * whole hertz show it. */
  lemma RatioIs(base: nat, target: nat, ratio: nat)
    requires target >= MAX_DIVIDER_RATIO && Usable(base, target) && IsLeastRatio(base, target, ratio)
    ensures ratio == base / target + if base % target >= base / target then 1 else 0
  {
    var q, m := base / target, base % target;
    assert base == q * target + m;
    if q > 0 {
      AtWhole(base, target, q);
      LeastRatioBounds(base, target, ratio, q);
    }
    BelowWhole(base, target, q + 1);
    LeastRatioBounds(base, target, ratio, q + 1);
    if q > 1 {
      OneLessTooFast(base, target, q);
      LeastRatioBounds(base, target, ratio, q - 1);
    }
  }

  lemma OneLessTooFast(base: nat, target: nat, q: nat)
    requires 1 < q <= target && q * target <= base
    ensures base / (q - 1) > target
  {
    DivAtMost(base, q - 1, target);
    assert (q - 1) * (target + 1) == q * target + q - target - 1;
  }

  /** Counted exactly, the bus keeps to the target speed if and only if the division leaves no
    * rest, or one that is at least the quotient while the quotient is below 32. */
  lemma BusSpeedExact(base: nat, target: nat, ratio: nat)
    requires target >= MAX_DIVIDER_RATIO && Usable(base, target) && IsLeastRatio(base, target, ratio)
    ensures base <= Period(ratio) * target
      <==> base % target == 0 || (base / target < MAX_DIVIDER_RATIO && base % target >= base / target)
  {
    var q, m := base / target, base % target;
    RatioIs(base, target, ratio);
    PeriodIsRatio(ratio);
    if ratio == 1 {
      assert base <= target;
    } else if Period(ratio) == q {
      AtWhole(base, target, q);
    } else {
      BelowWhole(base, target, q + 1);
    }
  }

  /** A clock for which the bus runs too fast: 3 299 999 Hz for a target of 100 kHz gives the
    * ratio 33, and so a period of 32 and 103 124 Hz. */
  lemma RatioTooFast(ratio: nat)
    requires IsLeastRatio(3_299_999, 100_000, ratio)
    ensures ratio == 33 && Period(ratio) == 32 && 3_299_999 / Period(ratio) == 103_124
  {
    assert 3_299_999 / 100_000 == 32 && 3_299_999 % 100_000 == 99_999;
    RatioIs(3_299_999, 100_000, ratio);
    PeriodIsRatio(33);
  }

  /** A clock for which whole hertz hide it: 3 200 031 Hz gives the ratio 32. */
  lemma RatioSlightlyFast(ratio: nat)
    requires IsLeastRatio(3_200_031, 100_000, ratio)
    ensures ratio == Period(ratio) == 32 && 3_200_031 / 32 == 100_000 && 3_200_031 > 32 * 100_000
  {
    assert 3_200_031 / 100_000 == 32 && 3_200_031 % 100_000 == 31;
    RatioIs(3_200_031, 100_000, ratio);
    PeriodIsRatio(32);
  }

  /** A shifted fallback ratio that is clamped at 32 and loses the rest of the division. */
  predicate ClampLoses(base: nat, target: nat, shift: nat)
    requires target > 0
  {
    && CeilShr(base / target, shift) == MAX_DIVIDER_RATIO
    && base / target == Shl(MAX_DIVIDER_RATIO, shift) && base % target != 0
  }

  /** With the fallback clock shifted, the bus keeps to the target speed exactly unless the
    * ratio is clamped and the division has a rest. */
  lemma FallBackSpeed(base: nat, target: nat, shift: nat, d: Divider)
    requires target >= MAX_DIVIDER_RATIO && shift > 0 && FellBack(base, target, shift, d)
    ensures Period(d.ratio) == d.ratio && Shl(d.ratio, shift) > 0
    ensures base <= Shl(d.ratio, shift) * target <==> !ClampLoses(base, target, shift)
    ensures base / Shl(d.ratio, shift) <= target
      <==> !(ClampLoses(base, target, shift) && base % target >= Shl(MAX_DIVIDER_RATIO, shift))
  {
    var q, c, whole := base / target, CeilShr(base / target, shift), Shl(d.ratio, shift);
    CeilShrIs(q, shift, c);
    ShlPositive(d.ratio, shift);
    ShiftedRatio(q, shift);
    PeriodIsRatio(d.ratio);
    if c < MAX_DIVIDER_RATIO {
      ShlGrows(c, shift);
      BelowWhole(base, target, whole);
    } else if q < whole {
      BelowWhole(base, target, whole);
    } else {
      AtWhole(base, target, whole);
    }
  }

  /** A ratio that was halved at all is at least 17 before it is increased. */
  lemma ShiftedRatio(q: nat, shift: nat)
    requires shift > 0 && forall j: nat | j < shift :: CeilShr(q, j) > MAX_DIVIDER_RATIO
    ensures CeilShr(q, shift) >= 17
  {
    assert CeilShr(q, shift - 1) > MAX_DIVIDER_RATIO;
  }

  lemma {:induction false} ShlPositive(x: nat, k: nat)
    requires x > 0
    ensures Shl(x, k) > 0
  {
    if k > 0 { ShlPositive(x, k - 1); }
  }

  /** Fewer periods of the target than the whole division fit into a second. */
  lemma BelowWhole(base: nat, target: nat, whole: nat)
    requires target > 0 && base / target < whole
    ensures base < whole * target && base / whole <= target
  {
    DivAtMost(base, target, base / target);
    MulMono(base / target + 1, whole, target);
    DivAtMost(base, whole, target);
    assert whole * (target + 1) == whole * target + whole;
  }

  /** Exactly as many fit: what is left over decides. */
  lemma AtWhole(base: nat, target: nat, whole: nat)
    requires target > 0 && base / target == whole > 0
    ensures base <= whole * target <==> base % target == 0
    ensures base / whole <= target <==> base % target < whole
  {
    assert base == whole * target + base % target;
    DivAtMost(base, whole, target);
    assert whole * (target + 1) == whole * target + whole;
  }

  /** With the fallback clock unshifted, the bus keeps to the target as with the other clocks:
    * exactly if 32 does. */
  lemma FallBackSpeedUnshifted(base: nat, target: nat, d: Divider)
    requires target >= MAX_DIVIDER_RATIO && base > 0 && FellBack(base, target, 0, d)
    ensures base / Period(d.ratio) <= target <==> base / 32 <= target
    ensures base <= Period(d.ratio) * target
      <==> base % target == 0 || (base / target < MAX_DIVIDER_RATIO && base % target >= base / target)
  {
    var r: nat :| IsLeastRatio(base, target, r) && d.ratio == Min(r, MAX_DIVIDER_RATIO);
    BusSpeed(base, target, r);
    BusSpeedExact(base, target, r);
    PeriodIsRatio(r);
    PeriodIsRatio(d.ratio);
  }

  /** A fallback result is determined. */
  lemma FellBackUnique(base: nat, target: nat, s1: nat, d1: Divider, s2: nat, d2: Divider)
    requires target >= MAX_DIVIDER_RATIO && s1 > 0
    requires FellBack(base, target, s1, d1) && FellBack(base, target, s2, d2)
    ensures s1 == s2 && d1 == d2
  {
  }

  /** A clock for which the bus runs too fast: 6 499 999 Hz for a target of 100 kHz gives the
    * ratio 32 at shift 1, and so 101 562 Hz. */
  lemma FallBackTooFast(shift: nat, d: Divider)
    requires FellBack(6_499_999, 100_000, shift, d)
    ensures d == Divider(5, 32) && shift == 1 && ClampLoses(6_499_999, 100_000, 1)
    ensures 6_499_999 / Shl(d.ratio, shift) == 101_562
  {
    assert 6_499_999 / 100_000 == 64;
    assert CeilShr(64, 0) == 64 && CeilShr(64, 1) == 32;
    assert FellBack(6_499_999, 100_000, 1, Divider(5, 32));
    FellBackUnique(6_499_999, 100_000, 1, Divider(5, 32), shift, d);
    assert Shl(32, 1) == 64;
  }
}
