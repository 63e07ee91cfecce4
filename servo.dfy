/** The stateful part of ContinuousServo.cpp. `Registry` holds the library's
    static globals (lines 20-24) and runs the timer-compare handler on them;
    `ContinuousServo` is the object an application constructs per motor,
    a handle that commands its slot of the shared table. Every method is
    proved against the value-level model in Channels and Scheduler. */
module Servo {
  import opened ServoTypes
  import opened Timing
  import opened Channels
  import opened Scheduler

  /** The static globals: the channel table `servos[12]`, `servoCount`, the
      cursor `activeServo`, `busy`, `timerInitialized` and the compare
      register OCR1A. The ghost fields record what the library does to the
      outside world: pin levels, pin modes and the callbacks invoked. */
  class Registry {
    const servos: array<Channel>
    var servoCount: nat
    var activeServo: int
    var busy: bool
    var timerInitialized: bool
    var ocr: u16
    ghost var level: map<u16, bool>
    ghost var mode: map<u16, PinMode>
    ghost var calls: seq<nat>

    /** The globals as one value. */
    ghost function State(): Globals
      reads this, servos
    {
      Globals(servos[..], servoCount, activeServo, busy, ocr, level, mode, calls)
    }

    ghost predicate Valid()
      reads this, servos
    {
      Inv(State())
    }

    /** Static initialisation: every slot zero, no channel registered, no
      cycle in progress, not busy, timer not yet started. */
    constructor ()
      ensures Valid() && fresh(servos)
      ensures State() == Globals(seq(Capacity, _ => Idle), 0, -1, false, 0, map[], map[], [])
      ensures !timerInitialized
    {
      servos := new Channel[Capacity](_ => Idle);
      servoCount, activeServo, busy, timerInitialized, ocr := 0, -1, false, false, 0;
      level, mode, calls := map[], map[], [];
    }

    /** `initializeTimer`: starts timer 1 and arms its compare interrupt;
      only the one-shot flag is modelled. */
    method InitializeTimer()
      modifies this`timerInitialized
      ensures timerInitialized
    {
      timerInitialized := true;
    }

    /** The timer-compare handler `TIMER1_COMPA_vect`, with `now` the value of
      TCNT1 it reads. It performs exactly one transition `Fire`. */
    method OnCompareMatch(now: u16)
      requires Valid()
      modifies this, servos
      ensures Valid()
      ensures State() == Fire(old(State()), now)
      ensures timerInitialized == old(timerInitialized)
    {
      FireKeepsInv(State(), now);
      EndCurrentPulse();
      StartNextSlot(now);
    }

    /** Lines 129-155: end the pulse of the channel under the cursor. */
    method EndCurrentPulse()
      requires Wf(State())
      modifies this, servos
      ensures State() == EndSlot(old(State()))
      ensures timerInitialized == old(timerInitialized)
    {
      if activeServo >= 0 {
        var c := servos[activeServo];
        if c.active {
          level := level[c.pin := false];
          if activeServo >= servoCount - 1 {
            busy := false;
          }
          var moved := c.(step := c.step + c.direction);
          servos[activeServo] := moved;
          if moved.step == moved.targetStep {
            servos[activeServo] := moved.(active := false);
            if c.callback.Isr? {
              calls := calls + [c.callback.id];
            }
            mode := mode[c.pin := Input];
          }
        }
      }
    }

    /** Lines 156-188: move the cursor on and set the next compare value. */
    method StartNextSlot(now: u16)
      requires Wf(State())
      modifies this
      ensures State() == NextSlot(old(State()), now)
      ensures timerInitialized == old(timerInitialized)
    {
      activeServo := activeServo + 1;
      if activeServo < servoCount {
        var c := servos[activeServo];
        if c.active {
          ocr := (now + c.stepSize) % 0x1_0000;
          level := level[c.pin := true];
          busy := true;
        } else {
          ocr := (now + 4) % 0x1_0000;
        }
      } else {
        var soon := (now + 4) % 0x1_0000;
        if soon < RefreshTicks {
          ocr := RefreshTicks % 0x1_0000;
        } else {
          ocr := soon;
        }
        activeServo := -1;
      }
    }
  }

  /** One motor: its slot `index` in the shared table, its pin and its
      clamped pulse bounds in microseconds. */
  class ContinuousServo {
    const hub: Registry
    const index: nat
    const pin: u8
    const minPulse: u16
    const maxPulse: u16

    ghost predicate Valid()
      reads hub, hub.servos
    {
      && hub.Valid()
      && index < hub.servoCount
      && hub.servos[index].pin == pin
      && 1 < minPulse && maxPulse < RefreshCycle
    }

    /** Registers the motor in the next free slot. Degenerate bounds are
      replaced by the defaults; the slot gets position 0 and the pin, and no
      other slot changes. ContinuousServo.cpp does not check the capacity;
      here the caller must leave a slot free. */
    constructor (reg: Registry, pin: u8, minPulse: u16 := MinPulseDefault, maxPulse: u16 := MaxPulseDefault)
      requires reg.Valid() && reg.servoCount < Capacity
      modifies reg, reg.servos
      ensures Valid() && hub == reg
      ensures this.pin == pin
      ensures this.minPulse == ClampMinPulse(minPulse) && this.maxPulse == ClampMaxPulse(maxPulse)
      ensures index == old(reg.servoCount)
      ensures reg.State() == old(reg.State()).(
        servos := old(reg.State()).servos[index := Idle.(pin := pin)],
        count := index + 1)
      ensures reg.timerInitialized == old(reg.timerInitialized)
    {
      hub := reg;
      this.pin := pin;
      this.minPulse := ClampMinPulse(minPulse);
      this.maxPulse := ClampMaxPulse(maxPulse);
      index := reg.servoCount;
      new;
      reg.servoCount := reg.servoCount + 1;
      reg.servos[index] := reg.servos[index].(step := 0, pin := pin);
    }

    /** `step(steps, isr)`: starts the timer if needed, makes the pin an
      output and, as one atomic group, sets direction, target, pulse length,
      active flag and callback of this slot. No other slot changes and the
      position does not move. */
    method Step(steps: int, isr: Callback := NoCallback)
      requires Valid()
      modifies hub, hub.servos
      ensures Valid() && hub.timerInitialized
      ensures hub.State() == old(hub.State()).(
        servos := old(hub.State()).servos[index :=
          Command(old(hub.servos[index]), steps, isr, StepSizeTicks(steps, minPulse, maxPulse))],
        mode := old(hub.mode)[pin := Output])
      ensures OnCourse(hub.servos[index]) && hub.servos[index].step == old(hub.servos[index].step)
    {
      CommandSetsCourse(hub.servos[index], steps, isr, StepSizeTicks(steps, minPulse, maxPulse));
      if !hub.timerInitialized {
        hub.InitializeTimer();
      }
      hub.mode := hub.mode[pin := Output];
      var stepSize := StepSizeTicks(steps, minPulse, maxPulse);
      hub.servos[index] := Command(hub.servos[index], steps, isr, stepSize);
    }

    /** `stepTo(absoluteStep, isr)`: `step` by the difference between the
      target and the present position. */
    method StepTo(absoluteStep: int, isr: Callback := NoCallback)
      requires Valid()
      modifies hub, hub.servos
      ensures Valid() && hub.timerInitialized
      ensures var steps := absoluteStep - old(hub.servos[index].step);
        hub.State() == old(hub.State()).(
          servos := old(hub.State()).servos[index :=
            Command(old(hub.servos[index]), steps, isr, StepSizeTicks(steps, minPulse, maxPulse))],
          mode := old(hub.mode)[pin := Output])
      ensures hub.servos[index].targetStep == absoluteStep
      ensures hub.servos[index].direction == Sign(absoluteStep - hub.servos[index].step)
    {
      Step(absoluteStep - hub.servos[index].step, isr);
    }

    /** `stop()`: `step(0)` with no callback. The slot keeps its position,
      its target becomes that position, and it is inactive with direction 0. */
    method Stop()
      requires Valid()
      modifies hub, hub.servos
      ensures Valid() && hub.timerInitialized
      ensures hub.State() == old(hub.State()).(
        servos := old(hub.State()).servos[index :=
          Command(old(hub.servos[index]), 0, NoCallback, StepSizeTicks(0, minPulse, maxPulse))],
        mode := old(hub.mode)[pin := Output])
      ensures var c := hub.servos[index];
        c.direction == 0 && !c.active && c.targetStep == c.step == old(hub.servos[index].step)
        && c.callback == NoCallback
    {
      Step(0);
    }

    /** `getSteps()`: the slot's position. */
    method GetSteps() returns (steps: int)
      requires Valid()
      ensures steps == hub.servos[index].step
    {
      steps := hub.servos[index].step;
    }

    /** `storeSteps(steps)`: overwrites the position and nothing else. */
    method StoreSteps(steps: int)
      requires Valid()
      modifies hub.servos
      ensures Valid()
      ensures hub.State() == old(hub.State()).(
        servos := old(hub.State()).servos[index := old(hub.servos[index]).(step := steps)])
      ensures hub.servos[index].step == steps
    {
      hub.servos[index] := hub.servos[index].(step := steps);
    }

    /** `isBusy()`: the shared `busy` flag. */
    method IsBusy() returns (b: bool)
      requires Valid()
      ensures b == hub.busy
    {
      b := hub.busy;
    }

    /** `getDirection()`: the slot's direction, always -1, 0 or 1. */
    method GetDirection() returns (d: int)
      requires Valid()
      ensures d == hub.servos[index].direction
      ensures -1 <= d <= 1
    {
      d := hub.servos[index].direction;
    }
  }
}
