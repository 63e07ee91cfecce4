/** The pure arithmetic of ContinuousServo.cpp: the trim, the microsecond to
    tick conversion `usToTicks`, the three-point pulse-width selection that
    `step` performs with Arduino's `map`, and the constructor's clamp of
    degenerate pulse bounds. */
module Timing {
  import opened ServoTypes

  /** Microseconds subtracted from every pulse for the cost of `digitalWrite`. */
  const TrimDuration: int := 3
  /** Arduino's `clockCyclesPerMicrosecond()`, fixed at the value for a
      16 MHz board. It comes from the board's CPU clock, not from the
      header's `ClockSpeed`. */
  const CyclesPerMicrosecond: nat := 16
  /** Timer1 runs with a /8 prescaler. */
  const Prescaler: nat := 8

  /** Division as C and C++ compute it for a positive divisor: the quotient is
      truncated toward zero, so a negative numerator rounds up. */
  function CDiv(a: int, b: int): (q: int)
    requires b > 0
    ensures a >= 0 ==> q * b <= a < q * b + b
    ensures a < 0 ==> q * b - b < a <= q * b
  {
    if a >= 0 then a / b else -((-a) / b)
  }

  /** `usToTicks(us)`: `(clockCyclesPerMicrosecond() * us) / 8`, with C
      division. The result is within one tick of the exact value. */
  function UsToTicks(cyclesPerUs: nat, us: int): (t: int)
    ensures us >= 0 ==> Prescaler * t <= cyclesPerUs * us < Prescaler * t + Prescaler
    ensures us < 0 ==> Prescaler * t - Prescaler < cyclesPerUs * us <= Prescaler * t
    ensures cyclesPerUs == 16 ==> t == 2 * us
  {
    CDiv(cyclesPerUs * us, Prescaler)
  }

  /** The compare value that marks the end of a refresh cycle, in ticks. */
  const RefreshTicks: int := UsToTicks(CyclesPerMicrosecond, RefreshCycle)

  lemma RefreshIsFortyThousandTicks()
    ensures CyclesPerMicrosecond == 16
    ensures RefreshTicks == 40000
  {
  }

  /** The point on the 0..2 scale that `step` passes to `map`:
      0 for full reverse, 1 for stopped, 2 for full forward. */
  function ScalePoint(steps: int): (v: int)
    ensures 0 <= v <= 2
    ensures (v == 0 <==> steps < 0) && (v == 2 <==> steps > 0)
  {
    if steps == 0 then 1 else if steps > 0 then 2 else 0
  }

  /** Arduino's `map(value, 0, 2, lo, hi)`: linear interpolation in `long`
      arithmetic, `(value - 0) * (hi - lo) / (2 - 0) + lo`. */
  function MapScale(value: int, lo: int, hi: int): (r: int)
    requires 0 <= value <= 2
    ensures value == 0 ==> r == lo
    ensures value == 2 ==> r == hi
    ensures lo <= hi ==> lo <= r <= hi
    ensures hi <= lo ==> hi <= r <= lo
  {
    CDiv(value * (hi - lo), 2) + lo
  }

  /** The pulse width in microseconds that `step(steps)` selects, before the
      trim is subtracted. */
  function PulseWidthUs(steps: int, minPulse: int, maxPulse: int): (us: int)
    ensures steps < 0 ==> us == minPulse
    ensures steps > 0 ==> us == maxPulse
    ensures steps == 0 ==> us == minPulse + CDiv(maxPulse - minPulse, 2)
  {
    MapScale(ScalePoint(steps), minPulse, maxPulse)
  }

  /** The value `step` stores in `stepSize`: the trimmed pulse width converted
      to ticks, stored into a 16-bit `unsigned int`. */
  function StepSizeTicks(steps: int, minPulse: int, maxPulse: int): (t: u16)
    ensures t == (2 * (PulseWidthUs(steps, minPulse, maxPulse) - TrimDuration)) % 0x1_0000
  {
    UsToTicks(CyclesPerMicrosecond, PulseWidthUs(steps, minPulse, maxPulse) - TrimDuration) % 0x1_0000
  }

  /** With bounds of at least the trim and below a refresh cycle, in either
      order, the tick count does not wrap: it is exactly twice the trimmed
      width, and lies between the two trimmed bounds. */
  lemma StepSizeWithinBounds(steps: int, minPulse: int, maxPulse: int)
    requires TrimDuration <= minPulse < RefreshCycle && TrimDuration <= maxPulse < RefreshCycle
    ensures StepSizeTicks(steps, minPulse, maxPulse) == 2 * (PulseWidthUs(steps, minPulse, maxPulse) - TrimDuration)
    ensures minPulse <= maxPulse ==>
      2 * (minPulse - TrimDuration) <= StepSizeTicks(steps, minPulse, maxPulse) <= 2 * (maxPulse - TrimDuration)
    ensures maxPulse <= minPulse ==>
      2 * (maxPulse - TrimDuration) <= StepSizeTicks(steps, minPulse, maxPulse) <= 2 * (minPulse - TrimDuration)
  {
  }

  /** The constructor's clamp lets odd bounds through: a lower bound above
      the upper one, a lower bound of 2 whose trimmed reverse width is
      negative and wraps to 65534 ticks (about 32.8 ms), a lower bound far
      beyond a refresh cycle, which has no clamp at all. */
  lemma ClampAdmitsOddBounds()
    ensures ClampMinPulse(3000) == 3000 && ClampMaxPulse(MaxPulseDefault) == MaxPulseDefault
    ensures StepSizeTicks(-1, ClampMinPulse(2), MaxPulseDefault) == 65534
    ensures ClampMinPulse(30000) == 30000
  {
    assert ClampMinPulse(2) == 2;
    assert PulseWidthUs(-1, 2, MaxPulseDefault) - TrimDuration == -1;
    assert UsToTicks(CyclesPerMicrosecond, -1) == -2;
    assert -2 % 0x1_0000 == 65534;
  }

  /** The clamp has no lower limit on the upper bound: 0 is kept, and the
      trimmed forward width of -3 µs wraps to 65530 ticks. */
  lemma ClampAdmitsZeroUpper()
    ensures ClampMaxPulse(0) == 0 && StepSizeTicks(1, MinPulseDefault, ClampMaxPulse(0)) == 65530
  {
    assert ClampMaxPulse(0) == 0;
    var w := PulseWidthUs(1, MinPulseDefault, 0);
    assert w == 0;
    assert UsToTicks(CyclesPerMicrosecond, w - TrimDuration) == -6;
    assert -6 % 0x1_0000 == 65530;
  }

  /** The three pulse lengths of a channel with the default bounds, in ticks. */
  lemma DefaultStepSize(steps: int)
    ensures StepSizeTicks(steps, MinPulseDefault, MaxPulseDefault)
         == if steps < 0 then 1082 else if steps == 0 then 2940 else 4798
  {
    if steps < 0 {
      assert PulseWidthUs(steps, MinPulseDefault, MaxPulseDefault) - TrimDuration == 541;
    } else if steps == 0 {
      assert CDiv(MaxPulseDefault - MinPulseDefault, 2) == 929;
      assert PulseWidthUs(steps, MinPulseDefault, MaxPulseDefault) - TrimDuration == 1470;
    } else {
      assert PulseWidthUs(steps, MinPulseDefault, MaxPulseDefault) - TrimDuration == 2399;
    }
  }

  /** The constructor replaces a lower bound of 0 or 1 by the default. */
  function ClampMinPulse(p: u16): (r: u16)
    ensures r > 1
    ensures p > 1 ==> r == p
    ensures p <= 1 ==> r == MinPulseDefault
  {
    if p <= 1 then MinPulseDefault else p
  }

  /** The constructor replaces an upper bound of a whole refresh cycle or more
      by the default. */
  function ClampMaxPulse(p: u16): (r: u16)
    ensures r < RefreshCycle
    ensures p < RefreshCycle ==> r == p
    ensures p >= RefreshCycle ==> r == MaxPulseDefault
  {
    if p >= RefreshCycle then MaxPulseDefault else p
  }

  /** The defaults pass the constructor's own clamp unchanged. */
  lemma DefaultsSurviveClamp()
    ensures ClampMinPulse(MinPulseDefault) == MinPulseDefault
    ensures ClampMaxPulse(MaxPulseDefault) == MaxPulseDefault
  {
  }
}
