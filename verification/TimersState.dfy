/** The shared timers_state of shared/qemu-timer.c as the object the C functions update in place.
    Readings of the time source and of the raw counter are parameters. */
module TimersStates {
  import opened Arith
  import opened VirtualClock
  import opened TickCounter

  class TimersState {
    var ticksEnabled: bool
    var ticksPrev: int
    var ticksOffset: int
    var ticksRestart: int
    var clockOffset: int
    var clockRestart: int
    var tdf: Tdf

    ghost var initial: int              // the clock at creation
    ghost var history: seq<ClockEvent>  // all that happened to the clock since

    ghost function Clock(): ClockState
      reads this
    {
      ClockState(ticksEnabled, clockOffset, clockRestart, tdf)
    }

    ghost function Counter(): TickState
      reads this
    {
      TickState(ticksEnabled, ticksPrev, ticksOffset, ticksRestart, tdf)
    }

    ghost predicate Valid()
      reads this
    {
      && 0 <= initial
      && Clock() == Run(Created(initial), history)
      && WellFormed(Created(initial), history)
    }

    /** The instant of the last event. */
    ghost predicate NotBefore(now: int)
      reads this
    {
      history != [] ==> history[|history| - 1].at <= now
    }

    /** timers_state_create, followed by the initialisation of the TDF in SharedMemory::create. */
    constructor (currTicks: int, currClock: int)
      requires 0 <= currClock
      ensures Valid() && initial == currClock && history == []
      ensures !ticksEnabled && tdf == 1.0
      ensures ticksPrev == currTicks && ticksOffset == currTicks
    {
      ticksPrev := currTicks;
      ticksOffset := currTicks;
      clockOffset := currClock;
      clockRestart := currClock;
      ticksEnabled := false;
      tdf := 1.0;
      initial := currClock;
      history := [];
    }

    /** __cpu_get_clock: the straight-line reading shows the initial value plus the whole progress
        of every enabled period. */
    method GetClockOnce(now: int) returns (time: int)
      requires Valid() && NotBefore(now)
      ensures time == Reading(Clock(), now)
      ensures time == initial + SumFloors(Periods(history, now))
    {
      if !ticksEnabled {
        time := clockOffset;
      } else {
        time := Trunc(clockRestart as real + (now - clockRestart) as real / tdf + clockOffset as real);
      }
      ClockRefinesLedger(initial, history, now);
    }

    /** cpu_get_clock, with nobody else at work: the check/read/recheck loop agrees with
        __cpu_get_clock. */
    method GetClock(now: int) returns (time: int)
      requires Valid() && NotBefore(now)
      ensures time == Reading(Clock(), now)
      ensures time == initial + SumFloors(Periods(history, now))
    {
      ClockRefinesLedger(initial, history, now);
      time := 0;
      var done := false;
      while !done
        invariant done ==> time == Reading(Clock(), now)
        decreases !done
      {
        if !ticksEnabled {
          time := clockOffset;
          done := !ticksEnabled;
        }
        if !done && ticksEnabled {
          time := Trunc(clockRestart as real + (now - clockRestart) as real / tdf + clockOffset as real);
          done := ticksEnabled;
        }
      }
    }

    /** __cpu_get_ticks, which makes up for a raw counter that fell. */
    method GetTicksOnce(raw: int) returns (ticks: int)
      modifies this`ticksPrev, this`ticksOffset
      ensures ticks == Ticks(old(Counter()), raw)
      ensures Counter() == AfterRead(old(Counter()), raw)
    {
      if !ticksEnabled {
        ticks := ticksOffset;
      } else {
        if ticksPrev > raw {
          ticksOffset := Trunc(ticksOffset as real + (ticksPrev - raw) as real / tdf);
        }
        ticksPrev := raw;
        ticks := Trunc(ticksRestart as real + (raw - ticksRestart) as real / tdf + ticksOffset as real);
      }
    }

    /** cpu_get_ticks, with nobody else at work: the loop agrees with __cpu_get_ticks, and corrects
        the offset once. */
    method GetTicks(raw: int) returns (ticks: int)
      modifies this`ticksPrev, this`ticksOffset
      ensures ticks == Ticks(old(Counter()), raw)
      ensures Counter() == AfterRead(old(Counter()), raw)
    {
      ticks := 0;
      var done := false;
      while !done
        invariant if done then ticks == Ticks(old(Counter()), raw) && Counter() == AfterRead(old(Counter()), raw)
                  else Counter() == old(Counter())
        decreases !done
      {
        if !ticksEnabled {
          ticks := ticksOffset;
          done := !ticksEnabled;
        }
        if !done && ticksEnabled {
          if ticksPrev > raw {
            ticksOffset := Trunc(ticksOffset as real + (ticksPrev - raw) as real / tdf);
          }
          ticksPrev := raw;
          ticks := Trunc(ticksRestart as real + (raw - ticksRestart) as real / tdf + ticksOffset as real);
          done := ticksEnabled;
        }
      }
    }

    /** cpu_enable_ticks */
    method EnableTicks(realClock: int, realTicks: int)
      requires Valid() && NotBefore(realClock)
      modifies this
      ensures Valid() && initial == old(initial) && history == old(history) + [Enable(realClock)]
      ensures ticksEnabled && Counter() == TickCounter.EnableTicks(old(Counter()), realTicks)
      ensures Clock() == Step(old(Clock()), Enable(realClock))
      ensures Reading(Clock(), realClock) == Reading(old(Clock()), realClock)
    {
      ghost var e := Enable(realClock);
      ghost var before := Clock();
      ExtendRun(Created(initial), history, e);
      StepIsContinuous(before, e);
      if !ticksEnabled {
        ticksOffset := ticksOffset - realTicks;
        ticksRestart := realTicks;
        clockOffset := clockOffset - realClock;
        clockRestart := realClock;
        ticksEnabled := true;
      }
      history := history + [e];
      assert Clock() == Step(before, e);
    }

    /** cpu_disable_ticks; the counter and the clock are sampled one after the other. */
    method DisableTicks(realTicks: int, realClock: int)
      requires Valid() && NotBefore(realClock)
      modifies this
      ensures Valid() && initial == old(initial) && history == old(history) + [Disable(realClock)]
      ensures !ticksEnabled && Counter() == TickCounter.DisableTicks(old(Counter()), realTicks)
      ensures Clock() == Step(old(Clock()), Disable(realClock))
      ensures clockOffset == Reading(old(Clock()), realClock)
    {
      ghost var before := Clock();
      if ticksEnabled {
        var ticks := GetTicksOnce(realTicks);
        ticksOffset := ticks;
        var clock := GetClockOnce(realClock);
        clockOffset := clock;
        ticksEnabled := false;
      }
      ghost var e := Disable(realClock);
      ExtendRun(Created(initial), history, e);
      history := history + [e];
      assert Clock() == Step(before, e);
    }

    /** SharedMemory::setTdf, as the applier calls it: only while the clock is frozen. */
    method SetTdf(newTdf: Tdf, ghost now: int)
      requires Valid() && NotBefore(now) && !ticksEnabled
      modifies this`tdf, this`history
      ensures Valid() && history == old(history) + [VirtualClock.SetTdf(now, newTdf)]
      ensures Clock() == Step(old(Clock()), VirtualClock.SetTdf(now, newTdf))
    {
      ghost var e := VirtualClock.SetTdf(now, newTdf);
      ExtendRun(Created(initial), history, e);
      tdf := newTdf;
      history := history + [e];
    }

    /** vm_gettimeofday */
    method GetTimeOfDay(now: int) returns (sec: int, usec: int)
      requires Valid() && NotBefore(now)
      ensures 0 <= usec <= 999_999
      ensures var nanos := initial + SumFloors(Periods(history, now));
              sec * 1_000_000_000 + usec * 1000 <= nanos < sec * 1_000_000_000 + usec * 1000 + 1000
    {
      var time := GetClock(now);
      sec := CDiv(time, 1_000_000_000);
      usec := CDiv(time - sec * 1_000_000_000, 1000);
      RunKeepsLedger(initial, history, now);
      ReadingOfRepresented(Clock(), LedgerOf(history), initial, now);
      PeriodsNotNegative(initial, history, now);
      TimeOfDaySplits(time);
    }
  }

  lemma PeriodsNotNegative(initial: int, es: seq<ClockEvent>, now: int)
    requires 0 <= initial && WellFormed(Created(initial), es)
    requires es != [] ==> es[|es| - 1].at <= now
    ensures 0 <= SumFloors(Periods(es, now))
  {
    var l := LedgerOf(es);
    var s := Run(Created(initial), es);
    RunKeepsLedger(initial, es, now);
    ReadingOfRepresented(s, l, initial, now);
    if s.enabled {
      PeriodsExtend(l.finished, Period(now - s.restart, s.tdf));
    }
  }
}
