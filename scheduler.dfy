/** The timer-compare handler of ContinuousServo.cpp (`TIMER1_COMPA_vect`,
    lines 127-189) as a transition on the library's globals, and what a run
    of firings does: every registered channel is visited once per refresh
    cycle, in index order; an active channel is pulsed once per cycle and
    reaches its target exactly; its callback runs once. */
module Scheduler {
  import opened ServoTypes
  import opened Timing
  import opened Channels

  /** What the handler reads and writes: the channel table, `servoCount`,
      the cursor `activeServo` (-1 between cycles), `busy`, the compare
      register OCR1A, and a record of its effects on the outside world: the
      level last written to each pin (HIGH is true), the mode last set on
      each pin, and the callbacks invoked so far, in order. */
  datatype Globals = Globals(
    servos: seq<Channel>,
    count: nat,
    cursor: int,
    busy: bool,
    ocr: u16,
    level: map<u16, bool>,
    mode: map<u16, PinMode>,
    calls: seq<nat>)

  /** The shape the handler relies on: twelve slots, at most twelve of them
      registered, and a cursor that is -1 or a registered index. */
  predicate Wf(g: Globals)
  {
    && |g.servos| == Capacity
    && g.count <= Capacity
    && (g.cursor == -1 || 0 <= g.cursor < g.count)
  }

  /** The facts every operation of the library keeps: directions are -1, 0
      or 1, and a slot nobody registered is still zero. */
  predicate Inv(g: Globals)
  {
    && Wf(g)
    && (forall i :: 0 <= i < |g.servos| ==> TriState(g.servos[i]))
    && (forall i :: g.count <= i < |g.servos| ==> g.servos[i] == Idle)
  }

  /** Every channel that is active is on course for its target. */
  predicate AllOnCourse(g: Globals)
  {
    forall i :: 0 <= i < |g.servos| ==> OnCourse(g.servos[i])
  }

  /** First half of a firing (lines 129-155): if a channel is under the
      cursor and is active now, its pulse ends: the pin goes LOW, `busy` is
      cleared if it is the last index, the channel takes its step and, on
      arrival, calls its callback and releases its pin. The reset of the
      hardware counter at the start of a cycle is not part of the globals. */
  function EndSlot(g: Globals): (r: Globals)
    requires Wf(g)
  {
    if g.cursor < 0 then g
    else
      var c := g.servos[g.cursor];
      if !c.active then g
      else
        g.(servos := g.servos[g.cursor := Pulse(c)],
           busy := if g.cursor >= g.count - 1 then false else g.busy,
           level := g.level[c.pin := false],
           mode := if Completes(c) then g.mode[c.pin := Input] else g.mode,
           calls := g.calls + CallOf(c))
  }

  /** Second half of a firing (lines 156-188): the cursor moves on. A
      registered active channel starts its pulse and the next firing is
      `stepSize` ticks away; an inactive one gets a 4-tick slot. Past the last
      channel the cursor returns to -1 and the next firing is the refresh
      boundary, or 4 ticks away if that boundary is already behind.
      `now` is the value of TCNT1; sums wrap as 16-bit unsigned values. */
  function NextSlot(g: Globals, now: u16): (r: Globals)
    requires Wf(g)
  {
    var next := g.cursor + 1;
    if next < g.count then
      var c := g.servos[next];
      if c.active then
        g.(cursor := next, ocr := (now + c.stepSize) % 0x1_0000,
           level := g.level[c.pin := true], busy := true)
      else
        g.(cursor := next, ocr := (now + 4) % 0x1_0000)
    else
      var soon := (now + 4) % 0x1_0000;
      g.(cursor := -1, ocr := if soon < RefreshTicks then RefreshTicks % 0x1_0000 else soon)
  }

  /** One firing of the handler: the end of the current slot, then the start
      of the next. It keeps the globals well formed and the count fixed. */
  function Fire(g: Globals, now: u16): (r: Globals)
    requires Wf(g)
    ensures Wf(r) && r.count == g.count
  {
    NextSlot(EndSlot(g), now)
  }

  /** A firing never registers or renames a channel and changes no channel
      but the one under the cursor. */
  lemma FireFrame(g: Globals, now: u16)
    requires Wf(g)
    ensures var r := Fire(g, now);
      && (forall i :: 0 <= i < Capacity && i != g.cursor ==> r.servos[i] == g.servos[i])
      && (forall i :: 0 <= i < Capacity ==> r.servos[i].pin == g.servos[i].pin)
  {
  }

  /** The globals after one firing per element of `nows`. */
  function Run(g: Globals, nows: seq<u16>): (r: Globals)
    requires Wf(g)
    ensures Wf(r) && r.count == g.count
    decreases |nows|
  {
    if nows == [] then g else Run(Fire(g, nows[0]), nows[1..])
  }

  /** The cursor after each firing of a run. */
  function Cursors(g: Globals, nows: seq<u16>): seq<int>
    requires Wf(g)
    decreases |nows|
  {
    if nows == [] then []
    else
      var g1 := Fire(g, nows[0]);
      [g1.cursor] + Cursors(g1, nows[1..])
  }

  /** The indices lo, lo + 1, ..., hi - 1. */
  function Range(lo: int, hi: int): seq<int>
    decreases hi - lo
  {
    if lo >= hi then [] else [lo] + Range(lo + 1, hi)
  }

  /** The table with every channel in [lo, hi) pulsed once. */
  function PulseRange(s: seq<Channel>, lo: int, hi: int): seq<Channel>
  {
    seq(|s|, i requires 0 <= i < |s| => if lo <= i < hi then Pulse(s[i]) else s[i])
  }

  /** The callbacks that pulsing channels lo .. hi - 1 in order invokes. */
  function CallsFrom(s: seq<Channel>, lo: nat, hi: nat): seq<nat>
    requires hi <= |s|
    decreases hi - lo
  {
    if lo >= hi then [] else CallOf(s[lo]) + CallsFrom(s, lo + 1, hi)
  }

  /** The globals after whole refresh cycles, one run of firings each. */
  function RunCycles(g: Globals, sched: seq<seq<u16>>): (r: Globals)
    requires Wf(g)
    ensures Wf(r) && r.count == g.count
    decreases |sched|
  {
    if sched == [] then g else RunCycles(Run(g, sched[0]), sched[1..])
  }

  lemma {:induction false} CallsFromFrame(s: seq<Channel>, t: seq<Channel>, lo: nat, hi: nat)
    requires hi <= |s| && hi <= |t|
    requires forall i :: lo <= i < hi ==> s[i] == t[i]
    ensures CallsFrom(s, lo, hi) == CallsFrom(t, lo, hi)
    decreases hi - lo
  {
    if lo < hi {
      CallsFromFrame(s, t, lo + 1, hi);
      assert CallsFrom(s, lo, hi) == CallOf(s[lo]) + CallsFrom(s, lo + 1, hi);
      assert CallsFrom(t, lo, hi) == CallOf(t[lo]) + CallsFrom(t, lo + 1, hi);
      assert s[lo] == t[lo];
    }
  }

  /** Logging channel `c`'s callbacks and then those of the channels after
      it is logging those of the range from `c`, whatever happened to `c`. */
  lemma CallsFromStep(log: seq<nat>, s: seq<Channel>, t: seq<Channel>, c: nat, hi: nat)
    requires c < hi <= |s| && hi <= |t|
    requires forall i :: c < i < hi ==> s[i] == t[i]
    ensures (log + CallOf(s[c])) + CallsFrom(t, c + 1, hi) == log + CallsFrom(s, c, hi)
  {
    var head, tail := CallOf(s[c]), CallsFrom(s, c + 1, hi);
    CallsFromFrame(s, t, c + 1, hi);
    assert CallsFrom(s, c, hi) == head + tail;
    assert (log + head) + tail == log + (head + tail);
  }

  /** When only channel `k` can complete, pulsing a range calls at most its
      callback. */
  lemma {:induction false} CallsFromSingle(s: seq<Channel>, lo: nat, hi: nat, k: nat)
    requires hi <= |s|
    requires forall j :: lo <= j < hi && j != k ==> !s[j].active
    ensures CallsFrom(s, lo, hi) == if lo <= k < hi then CallOf(s[k]) else []
    decreases hi - lo
  {
    if lo < hi {
      CallsFromSingle(s, lo + 1, hi, k);
    }
  }

  lemma EndSlotEffect(g: Globals)
    requires Wf(g)
    ensures var e := EndSlot(g);
      && e.cursor == g.cursor && e.count == g.count
      && e.servos == (if g.cursor < 0 then g.servos else g.servos[g.cursor := Pulse(g.servos[g.cursor])])
      && e.calls == (if g.cursor < 0 then g.calls else g.calls + CallOf(g.servos[g.cursor]))
  {
    if g.cursor >= 0 && !g.servos[g.cursor].active {
      assert g.servos[g.cursor := Pulse(g.servos[g.cursor])] == g.servos;
      assert g.calls + CallOf(g.servos[g.cursor]) == g.calls;
    }
  }

  lemma NextSlotEffect(g: Globals, now: u16)
    requires Wf(g)
    ensures var r := NextSlot(g, now);
      && r.cursor == (if g.cursor + 1 < g.count then g.cursor + 1 else -1)
      && r.servos == g.servos && r.calls == g.calls && r.count == g.count
  {
  }

  /** One firing moves the cursor to the next registered index, or back to
      -1 past the last one; it pulses the channel it leaves, if any, and
      records that channel's callback if it completes. */
  lemma FireEffect(g: Globals, now: u16)
    requires Wf(g)
    ensures var r := Fire(g, now);
      && r.cursor == (if g.cursor + 1 < g.count then g.cursor + 1 else -1)
      && r.servos == (if g.cursor < 0 then g.servos else g.servos[g.cursor := Pulse(g.servos[g.cursor])])
      && r.calls == (if g.cursor < 0 then g.calls else g.calls + CallOf(g.servos[g.cursor]))
  {
    EndSlotEffect(g);
    NextSlotEffect(EndSlot(g), now);
  }

  /** A firing moves the cursor to the next registered index, or to -1. */
  lemma FireCursor(g: Globals, now: u16)
    requires Wf(g)
    ensures Fire(g, now).cursor == (if g.cursor + 1 < g.count then g.cursor + 1 else -1)
  {
    var e := EndSlot(g);
    assert e.cursor == g.cursor && e.count == g.count;
  }

  /** From any point of a cycle, the firings left in it bring the cursor
      back to -1. */
  lemma {:induction false} CycleEndsAtStart(g: Globals, nows: seq<u16>)
    requires Wf(g) && |nows| == g.count - g.cursor
    ensures Run(g, nows).cursor == -1
    decreases |nows|
  {
    var g1, rest := Fire(g, nows[0]), nows[1..];
    FireCursor(g, nows[0]);
    assert Run(g, nows) == Run(g1, rest);
    if g1.cursor != -1 {
      CycleEndsAtStart(g1, rest);
    } else {
      assert rest == [];
    }
  }

  /** From any point of a cycle, the firings left in it move the cursor
      through the remaining indices in order and then back to -1. */
  lemma {:induction false} CycleCursors(g: Globals, nows: seq<u16>)
    requires Wf(g) && |nows| == g.count - g.cursor
    ensures Cursors(g, nows) == Range(g.cursor + 1, g.count) + [-1]
    decreases |nows|
  {
    var g1, rest := Fire(g, nows[0]), nows[1..];
    FireCursor(g, nows[0]);
    assert Cursors(g, nows) == [g1.cursor] + Cursors(g1, rest);
    if g1.cursor != -1 {
      CycleCursors(g1, rest);
      var tail := Range(g1.cursor + 1, g.count);
      assert Range(g.cursor + 1, g.count) == [g1.cursor] + tail;
      assert [g1.cursor] + (tail + [-1]) == ([g1.cursor] + tail) + [-1];
    } else {
      assert rest == [];
      assert Range(g.cursor + 1, g.count) == [];
      assert Cursors(g1, rest) == [];
    }
  }

  /** From any point of a cycle, the firings left in it pulse each remaining
      channel exactly once and leave the others alone. */
  lemma {:induction false} CycleServos(g: Globals, nows: seq<u16>)
    requires Wf(g) && |nows| == g.count - g.cursor
    ensures Run(g, nows).servos == PulseRange(g.servos, if g.cursor < 0 then 0 else g.cursor, g.count)
    decreases |nows|
  {
    var g1 := Fire(g, nows[0]);
    var rest := nows[1..];
    FireEffect(g, nows[0]);
    if g.cursor < 0 {
      if g.count == 0 {
        assert rest == [];
        assert PulseRange(g.servos, 0, 0) == g.servos;
      } else {
        CycleServos(g1, rest);
      }
    } else if g.cursor + 1 == g.count {
      assert rest == [];
      assert PulseRange(g.servos, g.cursor, g.count) == g1.servos;
    } else {
      CycleServos(g1, rest);
      assert PulseRange(g1.servos, g.cursor + 1, g.count) == PulseRange(g.servos, g.cursor, g.count);
    }
  }

  /** From any point of a cycle, the firings left in it invoke the callbacks
      of the remaining channels that complete, in index order. */
  lemma {:induction false} CycleCalls(g: Globals, nows: seq<u16>)
    requires Wf(g) && |nows| == g.count - g.cursor
    ensures Run(g, nows).calls == g.calls + CallsFrom(g.servos, if g.cursor < 0 then 0 else g.cursor, g.count)
    decreases |nows|
  {
    var g1 := Fire(g, nows[0]);
    var rest := nows[1..];
    FireEffect(g, nows[0]);
    if g.cursor < 0 {
      if g.count == 0 {
        assert rest == [];
      } else {
        CycleCalls(g1, rest);
      }
    } else if g.cursor + 1 == g.count {
      assert rest == [];
    } else {
      CycleCalls(g1, rest);
      CallsFromStep(g.calls, g.servos, g1.servos, g.cursor, g.count);
    }
  }

  /** A refresh cycle is `count + 1` firings from cursor -1: the cursor runs
      0, 1, ..., count - 1 and back to -1, so each registered channel has
      exactly one slot per cycle, in index order; each active channel is
      pulsed once, the others are untouched. */
  lemma FullCycle(g: Globals, nows: seq<u16>)
    requires Wf(g) && g.cursor == -1 && |nows| == g.count + 1
    ensures Cursors(g, nows) == Range(0, g.count) + [-1]
    ensures Run(g, nows).cursor == -1
    ensures Run(g, nows).servos == PulseRange(g.servos, 0, g.count)
    ensures Run(g, nows).calls == g.calls + CallsFrom(g.servos, 0, g.count)
  {
    CycleEndsAtStart(g, nows);
    CycleCursors(g, nows);
    CycleServos(g, nows);
    CycleCalls(g, nows);
  }

  /** After `m` refresh cycles every registered channel has been pulsed
      exactly `m` times; the slots nobody registered are untouched. */
  lemma {:induction false} CyclesPulseEachChannel(g: Globals, sched: seq<seq<u16>>)
    requires Wf(g) && g.cursor == -1
    requires forall k :: 0 <= k < |sched| ==> |sched[k]| == g.count + 1
    ensures var r := RunCycles(g, sched);
      && r.cursor == -1
      && forall i :: 0 <= i < Capacity ==>
           r.servos[i] == if i < g.count then PulseN(g.servos[i], |sched|) else g.servos[i]
    decreases |sched|
  {
    if sched != [] {
      var g1, rest := Run(g, sched[0]), sched[1..];
      CycleEndsAtStart(g, sched[0]);
      CycleServos(g, sched[0]);
      CyclesUnfold(g, sched);
      CyclesPulseEachChannel(g1, rest);
      var r := RunCycles(g1, rest);
      forall i | 0 <= i < Capacity
        ensures r.servos[i] == if i < g.count then PulseN(g.servos[i], |sched|) else g.servos[i]
      {
        assert g1.servos[i] == if i < g.count then Pulse(g.servos[i]) else g.servos[i];
      }
    }
  }

  /** A channel set on course reaches its target by exact equality after as
      many refresh cycles as it had steps to go, and stays there, inactive,
      with its direction unchanged; before that it is still active, that many
      steps along. */
  lemma ReachesTarget(g: Globals, sched: seq<seq<u16>>, i: nat)
    requires Wf(g) && g.cursor == -1
    requires forall k :: 0 <= k < |sched| ==> |sched[k]| == g.count + 1
    requires i < g.count && OnCourse(g.servos[i]) && g.servos[i].active
    ensures var c, r := g.servos[i], RunCycles(g, sched).servos[i];
      && (|sched| >= Distance(c) ==>
            r.step == c.targetStep && !r.active && r.direction == c.direction)
      && (|sched| < Distance(c) ==> r.active && r.step == Toward(c, |sched|))
  {
    CyclesPulseEachChannel(g, sched);
    ArrivesExactly(g.servos[i], |sched|);
  }

  /** One refresh cycle while channel `k` is the only registered channel in
      motion: it is pulsed once, only its callback can be invoked, and the
      other channels stay inactive. */
  lemma SoleMoverCycle(g: Globals, nows: seq<u16>, k: nat)
    requires Wf(g) && g.cursor == -1 && |nows| == g.count + 1 && k < g.count
    requires forall j :: 0 <= j < g.count && j != k ==> !g.servos[j].active
    ensures var g1 := Run(g, nows);
      && g1.cursor == -1
      && g1.calls == g.calls + CallOf(g.servos[k])
      && g1.servos[k] == Pulse(g.servos[k])
      && forall j :: 0 <= j < g.count && j != k ==> !g1.servos[j].active
  {
    FullCycle(g, nows);
    CallsFromSingle(g.servos, 0, g.count, k);
    var g1 := Run(g, nows);
    forall j | 0 <= j < g.count && j != k
      ensures !g1.servos[j].active
    {
      assert g1.servos[j] == Pulse(g.servos[j]);
    }
  }

  /** Appending the calls of `n` pulses is appending those of the first
      pulse and then those of the remaining `n - 1`. */
  lemma CallsNStep(log: seq<nat>, c: Channel, n: nat)
    requires n > 0
    ensures (log + CallOf(c)) + CallsN(Pulse(c), n - 1) == log + CallsN(c, n)
  {
    var tail := CallsN(Pulse(c), n - 1);
    assert CallsN(c, n) == CallOf(c) + tail;
    assert (log + CallOf(c)) + tail == log + (CallOf(c) + tail);
  }

  /** The first cycle of a schedule, and the cycles after it. */
  lemma CyclesUnfold(g: Globals, sched: seq<seq<u16>>)
    requires Wf(g) && sched != []
    requires forall n :: 0 <= n < |sched| ==> |sched[n]| == g.count + 1
    ensures var g1 := Run(g, sched[0]);
      && RunCycles(g, sched) == RunCycles(g1, sched[1..])
      && forall n :: 0 <= n < |sched[1..]| ==> |sched[1..][n]| == g1.count + 1
  {
    var rest := sched[1..];
    forall n | 0 <= n < |rest| ensures |rest[n]| == g.count + 1 {
      assert rest[n] == sched[n + 1];
    }
  }

  /** While channel `k` is the only registered channel in motion, the
      callbacks invoked over whole cycles are exactly those of its own pulses. */
  lemma {:induction false} SoleMoverCalls(g: Globals, sched: seq<seq<u16>>, k: nat)
    requires Wf(g) && g.cursor == -1
    requires forall n :: 0 <= n < |sched| ==> |sched[n]| == g.count + 1
    requires k < g.count
    requires forall j :: 0 <= j < g.count && j != k ==> !g.servos[j].active
    ensures RunCycles(g, sched).calls == g.calls + CallsN(g.servos[k], |sched|)
    decreases |sched|
  {
    if sched != [] {
      var g1, rest := Run(g, sched[0]), sched[1..];
      var c := g.servos[k];
      SoleMoverCycle(g, sched[0], k);
      CyclesUnfold(g, sched);
      SoleMoverCalls(g1, rest, k);
      CallsNStep(g.calls, c, |sched|);
    }
  }

  /** The completion callback of the only moving channel is invoked exactly
      once over the cycles that bring it to its target, and never before. */
  lemma SoleMoverCallsBackOnce(g: Globals, sched: seq<seq<u16>>, k: nat)
    requires Wf(g) && g.cursor == -1
    requires forall n :: 0 <= n < |sched| ==> |sched[n]| == g.count + 1
    requires k < g.count && OnCourse(g.servos[k]) && g.servos[k].active
    requires forall j :: 0 <= j < g.count && j != k ==> !g.servos[j].active
    ensures var c := g.servos[k];
      RunCycles(g, sched).calls ==
        if |sched| >= Distance(c) && c.callback.Isr? then g.calls + [c.callback.id] else g.calls
  {
    SoleMoverCalls(g, sched, k);
    CallbackOnce(g.servos[k], |sched|);
  }

  /** A firing keeps directions in {-1, 0, 1} and unregistered slots zero. */
  lemma FireKeepsInv(g: Globals, now: u16)
    requires Inv(g)
    ensures Inv(Fire(g, now))
  {
  }

  /** A firing keeps every active channel on course. */
  lemma FireKeepsCourse(g: Globals, now: u16)
    requires Inv(g) && AllOnCourse(g)
    ensures AllOnCourse(Fire(g, now))
  {
    if g.cursor >= 0 {
      PulseKeepsCourse(g.servos[g.cursor]);
    }
  }

  /** The slot a firing opens lasts the pulse length of an active channel,
      whose pin is then HIGH and `busy` set, and 4 ticks for an inactive
      one, measured on the 16-bit timer. */
  lemma SlotLength(g: Globals, now: u16)
    requires Wf(g)
    ensures var r := Fire(g, now);
      r.cursor >= 0 ==>
        var c := r.servos[r.cursor];
        && (r.ocr - now) % 0x1_0000 == (if c.active then c.stepSize else 4)
        && (c.active ==> r.busy && c.pin in r.level && r.level[c.pin])
  {
  }

  /** Past the last channel the next firing is at the refresh boundary, or
      4 ticks from now when that boundary has already passed. When the
      16-bit sum `now + 4` wraps (TCNT1 at 65532 or above) the wrapped sum is
      small, so the handler pads to the refresh boundary all the same. */
  lemma EndOfCycleCompare(g: Globals, now: u16)
    requires Wf(g) && g.cursor == g.count - 1
    ensures var r := Fire(g, now);
      && r.cursor == -1
      && (now + 4 < 0x1_0000 ==>
            && r.ocr == (if now + 4 < RefreshTicks then RefreshTicks else now + 4)
            && r.ocr >= now + 4)
      && (now + 4 >= 0x1_0000 ==> r.ocr == RefreshTicks)
  {
    RefreshIsFortyThousandTicks();
  }

  /** Ending the active pulse of the last-index channel clears `busy` and
      drives its pin LOW. */
  lemma LastPulseClearsBusy(g: Globals, now: u16)
    requires Wf(g) && g.count > 0 && g.cursor == g.count - 1
    requires g.servos[g.cursor].active
    ensures !Fire(g, now).busy
    ensures var p := g.servos[g.cursor].pin; p in Fire(g, now).level && !Fire(g, now).level[p]
  {
  }

  /** A firing clears a set `busy` flag exactly when it ends the active
      pulse of the last-index channel: ending the pulse of any other channel,
      an inactive slot and the end of a cycle all leave it set. */
  lemma BusyClearedOnlyAtLastActive(g: Globals, now: u16)
    requires Wf(g)
    ensures (g.busy && !Fire(g, now).busy) <==>
            (g.busy && 0 <= g.cursor == g.count - 1 && g.servos[g.cursor].active)
  {
  }

  /** While the last-index channel is inactive no firing clears `busy`: once
      set by an earlier channel's pulse it stays set through the rest of the
      cycle, the padding and every later cycle. */
  lemma {:induction false} BusyStaysWhileLastIdle(g: Globals, nows: seq<u16>)
    requires Wf(g) && g.count > 0 && g.busy && !g.servos[g.count - 1].active
    ensures Run(g, nows).busy
    decreases |nows|
  {
    if nows != [] {
      var g1 := Fire(g, nows[0]);
      assert !g1.servos[g.count - 1].active;
      BusyStaysWhileLastIdle(g1, nows[1..]);
    }
  }

  /** The end of a slot tests the channel's flag as it is at that moment:
      a channel whose slot opened inactive (no pulse was started) but which
      a command activated meanwhile still takes a step. */
  lemma SkippedSlotStillSteps(g: Globals, now: u16, steps: int, isr: Callback, size: u16)
    requires Wf(g) && g.cursor >= 0 && steps != 0
    ensures var i := g.cursor;
      var g2 := g.(servos := g.servos[i := Command(g.servos[i], steps, isr, size)]);
      Fire(g2, now).servos[i].step == g.servos[i].step + Sign(steps)
  {
  }

  /** The end of a slot acts on the flag the channel has at that moment:
      an active channel under the cursor has its pin driven LOW and takes
      its pulse, whatever its index, and if that pulse completes it, its pin
      returns to INPUT and its callback is logged; an inactive one is left
      exactly as it is, with no LOW written, no step taken and `busy`
      untouched. */
  lemma EndSlotTestsCurrentFlag(g: Globals)
    requires Wf(g) && g.cursor >= 0
    ensures var c := g.servos[g.cursor]; var r := EndSlot(g);
      && (c.active ==> c.pin in r.level && !r.level[c.pin] && r.servos[g.cursor] == Pulse(c))
      && (Completes(c) ==> c.pin in r.mode && r.mode[c.pin] == Input && r.calls == g.calls + CallOf(c))
      && (!Completes(c) ==> r.mode == g.mode && r.calls == g.calls)
      && (!c.active ==> r == g)
  {
  }

  /** No registered channel on pin `p` is active. */
  predicate PinIdle(g: Globals, p: u16)
    requires Wf(g)
  {
    forall i :: 0 <= i < g.count && g.servos[i].pin == p ==> !g.servos[i].active
  }

  /** A firing writes only the pins of active channels, and leaves inactive
      channels inactive, so an idle pin keeps its level. */
  lemma FireKeepsIdlePin(g: Globals, now: u16, p: u16)
    requires Wf(g) && PinIdle(g, p)
    ensures PinIdle(Fire(g, now), p)
    ensures var r := Fire(g, now); p in g.level ==> p in r.level && r.level[p] == g.level[p]
  {
    var e := EndSlot(g);
    if g.cursor >= 0 && g.servos[g.cursor].pin == p {
      assert e == g;
    }
    assert forall i :: 0 <= i < g.count && e.servos[i].pin == p ==> !e.servos[i].active;
  }

  /** An idle pin keeps its level through any run of firings. */
  lemma {:induction false} IdlePinHolds(g: Globals, nows: seq<u16>, p: u16)
    requires Wf(g) && PinIdle(g, p)
    ensures var r := Run(g, nows); p in g.level ==> p in r.level && r.level[p] == g.level[p]
    decreases |nows|
  {
    if nows != [] {
      FireKeepsIdlePin(g, nows[0], p);
      IdlePinHolds(Fire(g, nows[0]), nows[1..], p);
    }
  }

  /** `stop()` (or `step(0)`) issued while the channel under the cursor has
      its pulse HIGH clears its flag before the end of the slot, which then
      writes no LOW: unless another channel on the same pin moves, the pin
      stays HIGH through every later firing. */
  lemma StopDuringPulseLeavesPinHigh(g: Globals, size: u16, nows: seq<u16>)
    requires Wf(g) && g.cursor >= 0
    requires var c := g.servos[g.cursor]; c.pin in g.level && g.level[c.pin]
    requires forall i :: 0 <= i < g.count && i != g.cursor && g.servos[i].pin == g.servos[g.cursor].pin ==>
      !g.servos[i].active
    ensures var c := g.servos[g.cursor];
      var g2 := g.(servos := g.servos[g.cursor := Command(c, 0, NoCallback, size)]);
      && EndSlot(g2) == g2
      && c.pin in Run(g2, nows).level && Run(g2, nows).level[c.pin]
  {
    var c := g.servos[g.cursor];
    var g2 := g.(servos := g.servos[g.cursor := Command(c, 0, NoCallback, size)]);
    assert PinIdle(g2, c.pin);
    IdlePinHolds(g2, nows, c.pin);
  }
}
