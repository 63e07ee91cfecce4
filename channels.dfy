/** One channel of ContinuousServo.cpp as a value: the field group that
    `step` writes (lines 64-68) and the end-of-pulse update the timer handler
    applies to an active channel (lines 136-153), with the lemmas that an
    active channel reaches its target exactly and completes once. */
module Channels {
  import opened ServoTypes
  import opened Timing

  /** The direction `step` derives from a step count: 1, 0 or -1. */
  function Sign(x: int): (s: int)
    ensures -1 <= s <= 1
    ensures (s == 1 <==> x > 0) && (s == -1 <==> x < 0)
  {
    if x == 0 then 0 else if x > 0 then 1 else -1
  }

  /** The fields `step(steps, isr)` writes in its critical section, given the
      pulse length `size` it computed. The position itself is not touched. */
  function Command(c: Channel, steps: int, isr: Callback, size: u16): (r: Channel)
    ensures r.step == c.step && r.pin == c.pin
    ensures r.targetStep - r.step == steps
  {
    c.(direction := Sign(steps), targetStep := c.step + steps, stepSize := size,
       active := steps != 0, callback := isr)
  }

  /** An active channel has a nonzero direction that points at a target it
      has not reached yet. */
  predicate OnCourse(c: Channel)
  {
    c.active ==>
      (c.direction == 1 && c.step < c.targetStep) ||
      (c.direction == -1 && c.step > c.targetStep)
  }

  /** The stored direction is one of -1, 0, 1. */
  predicate TriState(c: Channel)
  {
    -1 <= c.direction <= 1
  }

  /** How many steps separate the channel from its target. */
  function Distance(c: Channel): nat
  {
    if c.targetStep >= c.step then c.targetStep - c.step else c.step - c.targetStep
  }

  /** The position `j` steps further along the channel's direction. */
  function Toward(c: Channel, j: nat): int
  {
    if c.direction == 1 then c.step + j else if c.direction == -1 then c.step - j else c.step
  }

  /** The handler's end of pulse for the channel under the cursor: an active
      channel moves by its direction, and on reaching its target becomes
      inactive, keeping its direction. An inactive channel is left alone. */
  function Pulse(c: Channel): (r: Channel)
    ensures r.pin == c.pin && r.direction == c.direction && r.targetStep == c.targetStep
    ensures r.stepSize == c.stepSize && r.callback == c.callback
    ensures !c.active ==> r == c
  {
    if !c.active then c
    else
      var moved := c.(step := c.step + c.direction);
      if moved.step == moved.targetStep then moved.(active := false) else moved
  }

  /** The end of pulse that reaches the target. */
  predicate Completes(c: Channel)
  {
    c.active && c.step + c.direction == c.targetStep
  }

  /** The callbacks that one end of pulse invokes: the channel's own, once,
      when it completes and is not NULL. */
  function CallOf(c: Channel): seq<nat>
  {
    if Completes(c) && c.callback.Isr? then [c.callback.id] else []
  }

  /** The channel after `n` of its pulses. */
  function PulseN(c: Channel, n: nat): Channel
    decreases n
  {
    if n == 0 then c else PulseN(Pulse(c), n - 1)
  }

  /** The callbacks invoked during `n` pulses of the channel, in order. */
  function CallsN(c: Channel, n: nat): seq<nat>
    decreases n
  {
    if n == 0 then [] else CallOf(c) + CallsN(Pulse(c), n - 1)
  }

  /** `step(steps)` sets the channel on course for a target `|steps|` away,
      with a direction in {-1, 0, 1}, and leaves position and pin alone. */
  lemma CommandSetsCourse(c: Channel, steps: int, isr: Callback, size: u16)
    ensures var r := Command(c, steps, isr, size);
      && OnCourse(r) && TriState(r)
      && r.step == c.step && r.pin == c.pin
      && r.targetStep - r.step == steps
      && (r.active <==> Distance(r) > 0)
  {
  }

  /** A channel that `step` leaves active always carries the full-reverse or
      full-forward width: the midpoint "stop" width is selected only by
      `step(0)`, which leaves the channel inactive, so it is never sent. */
  lemma ActiveWidthIsFullSpeed(c: Channel, steps: int, isr: Callback, minPulse: int, maxPulse: int)
    ensures var r := Command(c, steps, isr, StepSizeTicks(steps, minPulse, maxPulse));
      r.active ==>
        && (PulseWidthUs(steps, minPulse, maxPulse) == minPulse || PulseWidthUs(steps, minPulse, maxPulse) == maxPulse)
        && (r.direction == -1 ==> PulseWidthUs(steps, minPulse, maxPulse) == minPulse)
        && (r.direction == 1 ==> PulseWidthUs(steps, minPulse, maxPulse) == maxPulse)
    ensures steps == 0 ==> !Command(c, steps, isr, StepSizeTicks(steps, minPulse, maxPulse)).active
  {
  }

  /** `stepTo(x)` is `step(x - position)`: the target becomes `x` and the
      direction points from the position to `x`. */
  lemma StepToSetsTarget(c: Channel, x: int, isr: Callback, size: u16)
    ensures var r := Command(c, x - c.step, isr, size);
      && r.targetStep == x && r.direction == Sign(x - c.step)
      && (r.active <==> c.step != x)
      && OnCourse(r)
  {
  }

  /** `stop()` is `step(0)` with the NULL default callback: the channel is
      idle at its present position and no pulse of it calls anything. */
  lemma StopHalts(c: Channel, size: u16)
    ensures var r := Command(c, 0, NoCallback, size);
      && r.direction == 0 && !r.active && r.callback == NoCallback
      && r.targetStep == r.step == c.step
      && Pulse(r) == r && CallOf(r) == []
  {
  }

  /** One pulse keeps a channel on course; an active one gets one step
      closer and stays active exactly while it has not arrived. */
  lemma PulseKeepsCourse(c: Channel)
    requires OnCourse(c) && TriState(c)
    ensures OnCourse(Pulse(c)) && TriState(Pulse(c))
    ensures c.active ==> Distance(Pulse(c)) == Distance(c) - 1
    ensures Pulse(c).active <==> c.active && Distance(c) > 1
    ensures Pulse(c).direction == c.direction
  {
  }

  /** An inactive channel stays as it is, however often it is visited, and
      calls nothing. */
  lemma {:induction false} IdleStays(c: Channel, n: nat)
    requires !c.active
    ensures PulseN(c, n) == c
    ensures CallsN(c, n) == []
  {
    if n > 0 {
      IdleStays(c, n - 1);
    }
  }

  /** An active channel on course moves one step per pulse toward its target,
      arrives exactly after `Distance(c)` pulses, never overshoots, and then
      stays inactive with its direction unchanged. */
  lemma {:induction false} ArrivesExactly(c: Channel, j: nat)
    requires OnCourse(c) && c.active
    ensures j < Distance(c) ==> PulseN(c, j) == c.(step := Toward(c, j))
    ensures j >= Distance(c) ==> PulseN(c, j) == c.(step := c.targetStep, active := false)
    decreases j
  {
    if j > 0 {
      var d := Pulse(c);
      if Distance(c) == 1 {
        assert d == c.(step := c.targetStep, active := false);
        IdleStays(d, j - 1);
      } else {
        assert d == c.(step := Toward(c, 1));
        ArrivesExactly(d, j - 1);
      }
    }
  }

  /** Over the pulses that bring an active channel to its target, its
      callback is invoked exactly once, at arrival, and never before. */
  lemma {:induction false} CallbackOnce(c: Channel, n: nat)
    requires OnCourse(c) && c.active
    ensures n < Distance(c) ==> CallsN(c, n) == []
    ensures n >= Distance(c) ==>
      CallsN(c, n) == if c.callback.Isr? then [c.callback.id] else []
    decreases n
  {
    if n > 0 {
      var d := Pulse(c);
      if Distance(c) == 1 {
        IdleStays(d, n - 1);
      } else {
        CallbackOnce(d, n - 1);
      }
    }
  }

  /** `storeSteps` on a channel moving forward, to a value at or past its
      target, leaves it active for ever: it counts up without end and never
      completes. */
  lemma {:induction false} StoreBeyondTargetNeverArrives(c: Channel, v: int, n: nat)
    requires c.active && c.direction == 1 && v >= c.targetStep
    ensures PulseN(c.(step := v), n) == c.(step := v + n)
    ensures CallsN(c.(step := v), n) == []
    decreases n
  {
    if n > 0 {
      assert Pulse(c.(step := v)) == c.(step := v + 1);
      StoreBeyondTargetNeverArrives(c, v + 1, n - 1);
    }
  }

  /** The mirror case: `storeSteps` on a channel moving backward, to a value
      at or below its target, leaves it counting down without end. */
  lemma {:induction false} StoreBelowTargetNeverArrives(c: Channel, v: int, n: nat)
    requires c.active && c.direction == -1 && v <= c.targetStep
    ensures PulseN(c.(step := v), n) == c.(step := v - n)
    ensures CallsN(c.(step := v), n) == []
    decreases n
  {
    if n > 0 {
      assert Pulse(c.(step := v)) == c.(step := v - 1);
      StoreBelowTargetNeverArrives(c, v - 1, n - 1);
    }
  }
}
