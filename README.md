# ContinuousServo in Dafny

A verified model of the ArduinoContinuousServo library. The library drives
continuous-rotation servos as if they were stepper motors. It multiplexes
timer 1 over up to twelve channels. Each refresh cycle visits every
registered channel once, in index order. An active channel gets one pulse
per cycle, whose width is the full-reverse or the full-forward width.
`step(0)` computes and stores the midpoint "stop" width, but it also makes
the channel inactive, and an inactive channel gets no pulse: the library
stops a servo by sending nothing (`ActiveWidthIsFullSpeed`). When the
pulse ends the channel's position moves one step toward its target. On
arrival the channel stops and its completion callback runs.

Files:

- `servo_types.dfy` (module `ServoTypes`): the header. It holds the `servo_t`
  record as the datatype `Channel`, the default pulse bounds (544 and
  2402 µs), the refresh cycle (20000 µs), the 12-slot capacity and the
  callback type.
- `timing.dfy` (module `Timing`): the pure arithmetic. It has the trim of
  3 µs, `usToTicks` with C's truncating division, the three-point pulse
  selection that `step` does with Arduino's `map`, and the constructor's
  clamp of degenerate bounds.
- `channels.dfy` (module `Channels`): one channel as a value. It has the
  field group `step` writes, the end-of-pulse update of the handler, and
  the lemmas that an active channel arrives exactly and completes once.
- `scheduler.dfy` (module `Scheduler`): the timer-compare handler as the
  transition `Fire` on the globals, and runs of firings and whole cycles.
- `servo.dfy` (module `Servo`): the imperative layer. The class `Registry`
  holds the static globals and the handler method. The class
  `ContinuousServo` is the per-motor handle with the public API. Each
  method is proved against the value-level functions.

Hardware is abstracted as follows:

- TCNT1 is an argument `now` of the handler.
- OCR1A is a field.
- Pin writes are recorded in ghost maps (`level`, `mode`).
- A callback is `Isr(id)` or `NoCallback`. Invoking one appends its `id`
  to the ghost log `calls`.
- `clockCyclesPerMicrosecond()` is the constant 16, the value for a 16 MHz
  board. The header's `CONTINUOUS_SERVO_CLOCKSPEED` is not read by
  ContinuousServo.cpp.

Quirks of the code are kept as written, and lemmas state them:

- The end of a slot tests the channel's active flag as it is at that
  moment. A channel that a command activated during a skipped slot still
  takes a step (`SkippedSlotStillSteps`).
- The other direction of the same test: `stop()` or `step(0)` issued while
  a channel's pulse is HIGH clears its flag before the slot ends. The end
  of the slot then writes no LOW, takes no step and leaves `busy` alone.
  The handler writes only the pins of active channels. So the pin stays
  HIGH through all later firings, as long as no other channel on the same
  pin is active and no later `step` with a nonzero count reactivates the
  channel (`EndSlotTestsCurrentFlag`, `StopDuringPulseLeavesPinHigh`; the
  lemma covers runs of firings with no command in between).
- The constructor's clamp lets odd bounds through (`ClampAdmitsOddBounds`).
  A lower bound above the upper one is kept, and the reverse pulse is then
  longer than the forward one. A lower bound of 2 gives a trimmed reverse
  width of -1 µs, stored as 65534 ticks, a pulse of about 32.8 ms. The
  lower bound has no upper clamp, so 30000 is kept. The upper bound has no
  lower clamp either: an upper bound of 0 gives a trimmed forward width of
  -3 µs, stored as 65530 ticks (`ClampAdmitsZeroUpper`).
- Completion clears `active` but keeps `direction` (`ArrivesExactly`).
- Only the end of an active pulse on the last-index channel clears `busy`
  (`BusyClearedOnlyAtLastActive`, `LastPulseClearsBusy`). Ending the pulse
  of an earlier channel, an idle 4-tick slot and the end of a cycle all
  leave it set. While the last-index channel is idle, `busy` stays set once
  any earlier pulse set it (`BusyStaysWhileLastIdle`).
- `storeSteps` on a moving channel can put it past its target. It then never
  completes (`StoreBeyondTargetNeverArrives` going forward,
  `StoreBelowTargetNeverArrives` going backward). For this reason "on course"
  is a preserved property (`FireKeepsCourse`, `CommandSetsCourse`) and not
  a class invariant.

The header's default arguments are Dafny default parameters.
`minPulse`/`maxPulse` default to 544/2402, and the callback defaults to
`NoCallback`.

## Model

| member | source | states |
|---|---|---|
| `Timing.CDiv` | ContinuousServo.cpp:18 | the quotient truncates toward zero, as C division does, bounded on both sides for either sign of the numerator |
| `Timing.UsToTicks` | ContinuousServo.cpp:18 | ticks are within one tick of cycles·µs/8; at 16 cycles per µs exactly twice the microseconds |
| `Timing.RefreshIsFortyThousandTicks` | ContinuousServo.cpp:177-180 | the refresh boundary `usToTicks(20000)` is 40000 ticks at 16 MHz |
| `Timing.ScalePoint` | ContinuousServo.cpp:56 | the map input is 0 exactly for negative steps, 2 exactly for positive ones, else 1 |
| `Timing.MapScale` | ContinuousServo.cpp:57 | `map(v, 0, 2, lo, hi)` gives lo at 0, hi at 2 and stays between the bounds |
| `Timing.PulseWidthUs` | ContinuousServo.cpp:56-57 | negative steps select minPulse, positive ones maxPulse, zero the truncated midpoint |
| `Timing.StepSizeTicks` | ContinuousServo.cpp:56-60 | the stored pulse length is twice the trimmed width, reduced to 16 bits |
| `Timing.StepSizeWithinBounds` | ContinuousServo.cpp:56-60 | for bounds in [3, 20000), in either order, no wrap occurs and the tick count lies between the two trimmed bounds |
| `Timing.DefaultStepSize` | ContinuousServo.h:17-22 | with the default bounds the pulse lengths are 1082, 2940 and 4798 ticks |
| `Timing.ClampMinPulse` | ContinuousServo.cpp:33 | the lower bound is always above 1; 0 or 1 becomes 544, anything else is kept |
| `Timing.ClampMaxPulse` | ContinuousServo.cpp:34 | the upper bound is always below 20000; 20000 or more becomes 2402, anything else is kept |
| `Timing.DefaultsSurviveClamp` | ContinuousServo.cpp:33-34 | 544 and 2402 pass the constructor's clamp unchanged |
| `Timing.ClampAdmitsOddBounds` | ContinuousServo.cpp:33-34 | the clamp keeps a lower bound above the upper one, keeps 2 (whose reverse pulse wraps to 65534 ticks) and keeps 30000 |
| `Timing.ClampAdmitsZeroUpper` | ContinuousServo.cpp:33-34 | the clamp keeps an upper bound of 0, whose forward pulse wraps to 65530 ticks |
| `Channels.Sign` | ContinuousServo.cpp:64 | the direction is in {-1, 0, 1} and has the sign of the step count |
| `Channels.Command` | ContinuousServo.cpp:64-68 | the field group `step` writes: position and pin kept, target `steps` away from the position |
| `Channels.Pulse` | ContinuousServo.cpp:142-153 | one end of pulse changes only position and active flag; an inactive channel is left as it is |
| `Channels.CommandSetsCourse` | ContinuousServo.cpp:64-68 | `step(s)` keeps the position and pin, sets the target s away, active iff s is nonzero, and leaves the channel on course |
| `Channels.ActiveWidthIsFullSpeed` | ContinuousServo.cpp:56-68 | a channel `step` leaves active carries the min width when reversing and the max width when going forward; `step(0)`, which selects the midpoint, leaves it inactive |
| `Channels.StepToSetsTarget` | ContinuousServo.cpp:73-76 | `stepTo(x)` sets target x, direction sign(x - position), active iff not already at x |
| `Channels.StopHalts` | ContinuousServo.cpp:79-82 | `stop()` leaves direction 0, inactive, target = position, no callback; further pulses change and call nothing |
| `Channels.PulseKeepsCourse` | ContinuousServo.cpp:142-147 | one end of pulse keeps a channel on course, brings an active one one step closer, keeps the direction |
| `Channels.IdleStays` | ContinuousServo.cpp:136 | an inactive channel is never changed by the handler and calls nothing |
| `Channels.ArrivesExactly` | ContinuousServo.cpp:142-147 | an active channel is at position + j·direction after j pulses and at its target, inactive, from the Distance-th pulse on: no overshoot |
| `Channels.CallbackOnce` | ContinuousServo.cpp:144-151 | the callback is invoked exactly once, on arrival, and never before |
| `Channels.StoreBeyondTargetNeverArrives` | ContinuousServo.cpp:91-94 | storing a position at or past the target of a forward-moving channel leaves it stepping for ever, never completing |
| `Channels.StoreBelowTargetNeverArrives` | ContinuousServo.cpp:91-94 | storing a position at or below the target of a backward-moving channel leaves it counting down for ever, never completing |
| `Scheduler.EndSlot` | ContinuousServo.cpp:129-155 | the end of the current channel's pulse: pin LOW, busy cleared at the last index, step taken; on arrival inactive, callback logged, pin back to INPUT |
| `Scheduler.NextSlot` | ContinuousServo.cpp:156-188 | cursor advance and the next compare value |
| `Scheduler.Fire` | ContinuousServo.cpp:127-189 | one firing keeps the globals well formed and the channel count fixed |
| `Scheduler.FireFrame` | ContinuousServo.cpp:127-189 | one firing changes no channel but the one under the cursor and no pin identifier |
| `Scheduler.FireEffect` | ContinuousServo.cpp:129-158 | one firing moves the cursor to the next index or back to -1 and pulses only the channel it leaves |
| `Scheduler.CycleEndsAtStart` | ContinuousServo.cpp:156-188 | from any point of a cycle the remaining firings bring the cursor back to -1 |
| `Scheduler.CycleCursors` | ContinuousServo.cpp:156-188 | from any point of a cycle the cursor runs through the remaining indices in order and then to -1 |
| `Scheduler.CycleServos` | ContinuousServo.cpp:136-156 | the remaining firings of a cycle pulse each remaining channel exactly once |
| `Scheduler.CycleCalls` | ContinuousServo.cpp:144-151 | the remaining firings of a cycle invoke the callbacks of completing channels in index order |
| `Scheduler.FullCycle` | ContinuousServo.cpp:127-189 | count + 1 firings from -1 visit 0 .. count - 1 once each in order, pulse each active channel once and return the cursor to -1 |
| `Scheduler.CyclesPulseEachChannel` | ContinuousServo.cpp:127-189 | after m cycles every registered channel has been pulsed exactly m times; unregistered slots are untouched |
| `Scheduler.ReachesTarget` | ContinuousServo.cpp:142-147 | a commanded channel is at its target, inactive, direction kept, after Distance cycles, and still moving before |
| `Scheduler.SoleMoverCalls` | ContinuousServo.cpp:144-151 | with one moving channel the callbacks over m cycles are exactly those of its own m pulses |
| `Scheduler.SoleMoverCallsBackOnce` | ContinuousServo.cpp:144-151 | the moving channel's callback is logged exactly once when it arrives, and not before |
| `Scheduler.FireKeepsInv` | ContinuousServo.cpp:127-189 | a firing keeps directions in {-1, 0, 1} and unregistered slots zero |
| `Scheduler.FireKeepsCourse` | ContinuousServo.cpp:136-153 | a firing keeps every active channel on course for its target |
| `Scheduler.SlotLength` | ContinuousServo.cpp:158-173 | an active slot lasts stepSize ticks with the pin HIGH and busy set; an inactive one lasts 4 ticks (16-bit timer) |
| `Scheduler.EndOfCycleCompare` | ContinuousServo.cpp:174-188 | after the last channel the next firing is at tick 40000, or 4 ticks from now if that is later; when the 16-bit sum wraps it is at 40000 |
| `Scheduler.BusyClearedOnlyAtLastActive` | ContinuousServo.cpp:136-171 | a firing clears a set busy flag if and only if it ends the active pulse of the last-index channel |
| `Scheduler.LastPulseClearsBusy` | ContinuousServo.cpp:139-140 | ending an active pulse of the last-index channel clears busy and drives its pin LOW |
| `Scheduler.BusyStaysWhileLastIdle` | ContinuousServo.cpp:136-167 | while the last-index channel is idle no sequence of firings clears busy |
| `Scheduler.SkippedSlotStillSteps` | ContinuousServo.cpp:136-142 | a channel activated during its skipped slot still steps when the slot ends |
| `Scheduler.EndSlotTestsCurrentFlag` | ContinuousServo.cpp:129-155 | an active channel under the cursor gets its pin LOW and its pulse at any index, and on completion its pin is INPUT again and its callback logged; an inactive one leaves all the globals unchanged |
| `Scheduler.FireKeepsIdlePin` | ContinuousServo.cpp:136-171 | a firing writes no pin whose registered channels are all inactive, and keeps them inactive |
| `Scheduler.IdlePinHolds` | ContinuousServo.cpp:127-189 | such a pin keeps its level through any run of firings |
| `Scheduler.StopDuringPulseLeavesPinHigh` | ContinuousServo.cpp:79-82 | `stop()` during a HIGH pulse makes the end of the slot write nothing, and the pin stays HIGH through any run of firings while no other channel on that pin is active |
| `Servo.Registry.constructor` | ContinuousServo.cpp:20-24 | the globals start zeroed, with cursor -1, not busy and the timer uninitialised |
| `Servo.Registry.InitializeTimer` | ContinuousServo.cpp:109-124 | sets the one-shot timer flag |
| `Servo.Registry.OnCompareMatch` | ContinuousServo.cpp:127-189 | the handler performs exactly the transition Fire and keeps the invariant |
| `Servo.Registry.EndCurrentPulse` | ContinuousServo.cpp:129-155 | the field-by-field end of pulse equals EndSlot |
| `Servo.Registry.StartNextSlot` | ContinuousServo.cpp:156-188 | the cursor advance and compare value equal NextSlot |
| `Servo.ContinuousServo.constructor` | ContinuousServo.cpp:30-41 | the handle gets index = old count, clamped bounds, and its slot position 0 and its pin; count grows by one, nothing else changes |
| `Servo.ContinuousServo.Step` | ContinuousServo.cpp:47-70 | timer flag set, pin made output, this slot's command fields written as one group, position kept, slot on course, other slots unchanged |
| `Servo.ContinuousServo.StepTo` | ContinuousServo.cpp:73-76 | the slot's target becomes the absolute step and its direction points there |
| `Servo.ContinuousServo.Stop` | ContinuousServo.cpp:79-82 | the slot is inactive with direction 0, target = unchanged position, no callback |
| `Servo.ContinuousServo.GetSteps` | ContinuousServo.cpp:85-88 | returns the slot's position |
| `Servo.ContinuousServo.StoreSteps` | ContinuousServo.cpp:91-94 | only the slot's position changes, to the stored value, so a following GetSteps returns it |
| `Servo.ContinuousServo.IsBusy` | ContinuousServo.cpp:96-99 | returns the shared busy flag |
| `Servo.ContinuousServo.GetDirection` | ContinuousServo.cpp:101-104 | returns the slot's direction, always -1, 0 or 1 |

## Left out

- Servo.ContinuousServo.constructor: requires a free slot.
  ContinuousServo.cpp has no capacity check, and a thirteenth construction writes past
  `servos[12]`. The model rules that call out and does not return an error.
- Timer and pin hardware: the register writes of `initializeTimer`
  (TCCR1A/B, TIFR, TIMSK) are not modelled, and neither is the reset of
  TCNT1 at the start of a cycle. Only the one-shot flag is kept. The elapsed
  counter value is the handler's argument `now`.
- `pinMode` and `digitalWrite` are recorded in ghost maps and not performed.
- Interrupt masking (`SREG`, `cli`) and `volatile` are not modelled.
  Commands and handler firings are separate atomic steps.
- Callback bodies are foreign code. A callback that itself issues a command
  from inside the handler is not modelled; invocations only go to the log.
- `Timing.UsToTicks`: the clock rate is fixed at 16 cycles per µs where the
  library stores tick counts. Other clocks are not modelled.
- `Timing.StepSizeTicks`: the 16-bit `int` intermediates of `step` are not
  truncated separately. At 16 cycles per µs the stored 16-bit result is the
  same.
- Integer widths: positions and targets (`long`), `steps` (`int`) and the
  `int` result of `getSteps` are unbounded integers. Their wrap-around is not
  modelled.
- Arduino's `map` is not part of this model beyond its formula on the
  three points 0, 1 and 2 that `step` uses.
