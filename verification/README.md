# A verified model of TdfAgent

TdfAgent slows virtual machines down by a time dilation factor (TDF). Each host's agent turns its CPU
load and the delay of its simulators into a TDF and broadcasts it; every agent keeps the last TDF of
each host, adopts the maximum once it has moved far enough, and applies it to a virtual clock, which
it freezes meanwhile, and to the emulated links. This project models those parts in Dafny and proves
what they promise.

| file | part of the system |
|---|---|
| `VirtualClock.dfy`, `TickCounter.dfy`, `TimersState.dfy`, `ClockReader.dfy` | the virtual clock and tick counter of `qemu-timer.c`: values and their runs, the shared object, the lock-free reader |
| `TdfTable.dfy`, `Hysteresis.dfy`, `ReplicaAgreement.dfy`, `Replicas.dfy` | the TDF table, its adoption threshold, tables and whole agents that hear the same messages |
| `Controllers.dfy`, `CpuIdle.dfy`, `CpuMonitor.dfy`, `LoadRuns.dfy` | the load and simulator controllers, idle ratios, the monitor's loop body and its runs |
| `VirtualTime.dfy`, `Applier.dfy`, `InterfaceConfigurator.dfy` | the thread that applies a TDF: all interleavings, one pass on the objects, the links |
| `EndToEnd.dfy` | monitors, table, applier and clock together |
| `RawMessage.dfy`, `Framing.dfy`, `Delivery.dfy`, `TcpSession.dfy` | framed messages, write queues, the replayed history |
| `MessageProcessor.dfy` | what incoming messages do |
| `Arith.dfy`, `Wrappers.dfy` | C conversions, powers, inequalities between products; `Option` |

Objects whose methods change fields are classes. Each of their methods is proved against a function of
the old state, and the properties of whole runs are lemmas about those functions. Threads are state
machines: a behaviour is a sequence of states linked by single steps, and theorems hold for every
behaviour.

Conventions. `double` and `long double` are exact reals, integers are unbounded, and a floating value
converted to an integer is rounded toward zero. The time source does not fall; its readings, those of
the cycle counter, CPU counters and simulator reports are parameters. Durations before the first
message are arbitrary: the clock is created with wall-clock time and later reads the monotonic clock
(`init_clocks` comes after `timers_state_create`), so its initial value is an arbitrary non-negative
number.

Where comments and code differ, the model follows the code: `qemu-timer.c:366` forbids reading the
ticks of a stopped clock, while the functions return the frozen value.

## Main results

- **The clock** shows its initial value plus the floor of length/tdf of each enabled period, so it lags
  exact dilated time by less than one unit per period (`ClockRefinesLedger`, `DriftIsBounded`). It never
  goes back, and with TDFs of at least one it never outruns real time (`ClockNeverGoesBack`). Changing
  the TDF of a running clock keeps that promise exactly if the TDF does not grow (`LiveTdfChange`).
- **The tick counter** goes back by at most one unit each time the raw counter falls
  (`TicksLoseAtMostFalls`), and never goes back exactly at the TDFs whose inverse is a whole number, so
  at 1 but at none above (`TicksNeverGoBackExactly`). Without falls it keeps the dilated pace to within
  two units, however often it is read (`TicksKeepPace`).
- **The lock-free reader** returns a value the clock showed inside its window if at most one toggle
  falls into that window, and only then in general (`ToleratesExactlyOneToggle`). It answers within nine
  steps if undisturbed, and within ten more for each toggle (`UndisturbedReaderAnswers`, `LoopIsBounded`).
- **Replicas** that hear the same messages per host end with equal tables, and TDFs within a factor
  (1+c)/(1-c) (`ReplicasAgree`). Equal TDFs are guaranteed exactly for TDFs so far apart that each
  replaces the other (`EqualExactlyIfSpaced`). Both hold for the shared memories of whole agents that
  wait (`WaitingAgentsAgree`, `WaitingAgentsEqual`).
- **The applier**, in all interleavings, waits with the TDF in force in shared memory unless a notify
  was missed (`WaitingIsCurrent`), and the notifies that can be missed are exactly those that come
  before the loop starts or between two iterations (`LostBeforeLockExactly`). A pending
  wakeup leads, by the applier's own steps, to a wait with everything applied (`WakeupLeadsToWait`), and
  in any interleaving its eighth step applies the TDF then in force (`EighthStepApplies`). An interleaved
  pass has the effect of an uninterrupted one (`PassIsAtomic`).
- **The load controller**: if some CPU keeps idling less than the target by a fixed gap, the broadcast of
  modes 0 and 2 reaches tdfMax within a computed number of iterations and stays there; if all keep idling
  more, that of mode 0 reaches tdfMin (`LoadDecidesBroadcast`). Mode 2 broadcasts the larger of what
  modes 0 and 1 would on the same samples (`ModesCombine`).
- **The simulator controller**, under a constant delay, ends up at tdfMax exactly if the delay is at
  least 1/alpha above its target (`SimControllerEndsAt`, `MonitorSaturates`). It gets there by equal
  strides and no faster (`SettledRunIsLinear`, `SimRunIsGradual`).
- **A pass** gives each kept link its rate divided and its delay multiplied by the TDF, rounded toward
  zero, and deletes the others (`UpdateInterfaceAttribute`), so that rate times delay is kept
  (`BandwidthDelayKept`).
- **End to end**, over all runs of monitors, table, applier and clock, TDFs stay within the limits, the
  virtual time neither goes back nor outruns real time, its slope lies in [1/tdfMax, 1], and
  `vm_gettimeofday` is lexicographically monotone (`EndToEnd`); and what a monitor broadcasts, once
  adopted, reaches the clock (`BroadcastReachesClock`).
- **Messages** survive framing exactly if they contain no NUL, and a session that joins is handed the
  last 100 messages and then every later one, in order (`RoundTripIsExact`, `JoinerIsHandedTheRest`,
  `SessionGetsTheRest`).

## Model

| member | source | states |
|---|---|---|
| VirtualClock.StepIsContinuous | virtualagent/shared/qemu-timer.c:354-374 | enabling resumes exactly at the frozen value, disabling freezes the value shown, and a TDF written while frozen does not show: no permitted event makes the clock jump |
| VirtualClock.PassDoesNotShow | virtualagent/VirtualTime.cpp:79-104 | stopping, writing the TDF and starting leaves the clock enabled with the new TDF, at what it showed when it was stopped |
| VirtualClock.ReadingBetween | virtualagent/shared/qemu-timer.c:337-351 | between events the reading never falls, and with a TDF of at least one it grows by at most the elapsed real time, truncation toward zero included |
| VirtualClock.SlopeWhileEnabled | virtualagent/shared/qemu-timer.c:346-348 | an enabled clock advances by elapsed/tdf, up to less than one unit |
| VirtualClock.LiveTdfChange | virtualagent/VirtualTime.cpp:79-104 | writing the TDF of a running clock can never set it back if and only if the new TDF is not larger, which is why the pass freezes the clock |
| VirtualClock.ClockRefinesLedger | virtualagent/shared/qemu-timer.c:337-390 | over every well-formed run from creation the compact state shows the initial value plus the sum of floor(length/tdf) over enabled periods |
| VirtualClock.DriftIsBounded | virtualagent/shared/qemu-timer.c:337-374 | after n enabled periods the clock lags the exact dilated time by at least 0 and by strictly less than n |
| VirtualClock.ClockNeverGoesBack | virtualagent/shared/qemu-timer.c:282-374 | any two instants of any well-formed run, from any state: readings do not decrease, and with TDFs of at least one virtual time is at most real time |
| VirtualClock.TimeOfDaySplits | virtualagent/shared/qemu-timer.c:243-244 | usec lies in [0, 999999] and the pair reconstructs the time to within less than 1000 ns from below |
| VirtualClock.TimeOfDayNeverGoesBack | virtualagent/shared/qemu-timer.c:237-246 | along every run the (sec, usec) pairs are lexicographically non-decreasing |
| TimersStates.TimersState.constructor | virtualagent/shared/qemu-timer.c:377-390 | a new timers_state is frozen at the time read at creation, with TDF 1.0 |
| TimersStates.TimersState.GetClockOnce | virtualagent/shared/qemu-timer.c:337-351 | the straight-line reading of the object is the initial value plus the whole progress of each enabled period of its history |
| TimersStates.TimersState.GetClock | virtualagent/shared/qemu-timer.c:282-305 | the check/read/recheck loop, alone, ends and agrees with the straight-line copy |
| TimersStates.TimersState.GetTicksOnce | virtualagent/shared/qemu-timer.c:311-331 | the straight-line copy: the value read, and the offset and previous raw value it leaves behind |
| TimersStates.TimersState.GetTicks | virtualagent/shared/qemu-timer.c:249-279 | the loop, alone, ends, agrees with the straight-line copy and corrects the offset once |
| TimersStates.TimersState.EnableTicks | virtualagent/shared/qemu-timer.c:354-364 | both counters are rebased; the clock still shows what it showed; an enabled clock is left alone |
| TimersStates.TimersState.DisableTicks | virtualagent/shared/qemu-timer.c:368-374 | both counters freeze at their current readings |
| TimersStates.TimersState.SetTdf | virtualagent/SharedMemory.cpp:61-65 | the shared TDF changes and nothing else, while the clock is frozen |
| TimersStates.TimersState.GetTimeOfDay | virtualagent/shared/qemu-timer.c:237-246 | the pair approximates the sum over enabled periods from below by less than 1000 ns, with usec in range |
| TickCounter.FreezeAndResume | virtualagent/shared/qemu-timer.c:354-374 | ticks freeze at the value read and resume there unless the raw counter fell meanwhile |
| TickCounter.FallWhileFrozen | virtualagent/shared/qemu-timer.c:354-364 | a raw counter that fell while frozen makes the first reading after enabling the frozen value plus the dilated fall, to within one unit |
| TickCounter.NextRead | virtualagent/shared/qemu-timer.c:311-331 | the next reading is at least the last minus one, and at least the last unless the raw counter fell and the corrected offset is positive, hence rounded down; a fall adds at most one unit, a rise adds less than the dilated rise plus one |
| TickCounter.TicksLoseAtMostFalls | virtualagent/shared/qemu-timer.c:249-279 | over all reads of an enabled period the ticks go back by at most one unit per fall of the raw counter |
| TickCounter.FallingCounterLosesATick | virtualagent/shared/qemu-timer.c:262-267 | a concrete fall that does lose one tick |
| TickCounter.TicksNeverGoBackExactly | virtualagent/shared/qemu-timer.c:311-331 | for every TDF: over any reads of an enabled period, from any state, the ticks never go back if and only if 1/tdf is a whole number; true at 1, false above 1 |
| TickCounter.TicksKeepPace | virtualagent/shared/qemu-timer.c:311-331 | between any two reads of an enabled period without a fall of the raw counter, the ticks advance by the dilated rise, less than one unit more and less than two fewer, or one if clear of zero, however many reads lie in between |
| ClockReader.MoveKeepsInv | virtualagent/shared/qemu-timer.c:286-302 | what every single shared read, toggle, TDF change and passage of time keeps: the flag tells the parity of the toggles, and without a toggle the operands are still those in memory |
| ClockReader.ToleratesExactlyOneToggle | virtualagent/shared/qemu-timer.c:286-302 | with at most n toggles between check and recheck every answer is the virtual time at an instant of that window, if and only if n is at most one |
| ClockReader.TwoToggleWitness | virtualagent/shared/qemu-timer.c:287-291 | the interleaving with two toggles that returns a time never shown |
| ClockReader.LoopIsBounded | virtualagent/shared/qemu-timer.c:287-302 | in any interleaving the loop takes at most ten of its own steps for each toggle, and ten more |
| ClockReader.ReaderNeverBlocked | virtualagent/shared/qemu-timer.c:287-302 | until it has answered the reader can always take a step |
| ClockReader.UndisturbedReaderAnswers | virtualagent/shared/qemu-timer.c:287-302 | a reader that nobody disturbs answers within nine steps, with what the clock shows |
| TdfTables.TdfTable.constructor | virtualagent/MemoryDatabase.cpp:42-44 | an empty, disabled table with 1.0 in force |
| TdfTables.TdfTable.Set | virtualagent/MemoryDatabase.cpp:46-79 | the host's TDF is recorded; an enabled table adopts the maximum exactly when the relative change reaches the threshold, and notifies exactly then |
| TdfTables.TdfTable.MaxTdf | virtualagent/MemoryDatabase.cpp:126-148 | the loop finds a value that some host has and none exceeds |
| TdfTables.TdfTable.Clear | virtualagent/MemoryDatabase.cpp:96-99 | the entries go; the flag and the TDF in force stay |
| TdfTables.TdfTable.EnableTable | virtualagent/MemoryDatabase.cpp:101-105 | only the flag changes: the maximum is not re-evaluated |
| TdfTables.TdfTable.DisableTable | virtualagent/MemoryDatabase.cpp:106-110 | only the flag changes |
| TdfTables.TdfTable.EnforceTdf | virtualagent/MemoryDatabase.cpp:229-239 | the table is disabled and the enforced TDF is in force; the entries stay |
| TdfTables.AdoptionBand | virtualagent/MemoryDatabase.cpp:63-77 | a positive TDF is replaced if and only if the maximum lies outside the band from latest(1-c) to latest(1+c) |
| TdfTables.AdoptionFromNonPositive | virtualagent/MemoryDatabase.cpp:63-77 | a negative enforced TDF is never replaced, and zero is replaced by anything else |
| TdfTables.LatestChangesWithNotify | virtualagent/MemoryDatabase.cpp:70-77 | an operation that does not notify leaves the TDF in force unchanged |
| TdfTables.HearingNotifiesExactly | virtualagent/MemoryDatabase.cpp:63-77 | with a positive threshold a message notifies if and only if it changes the TDF in force |
| Hysteresis.RaisesAreBounded | virtualagent/MemoryDatabase.cpp:63-77 | k raises without a drop multiply the TDF by at least (1+c)^k, which the largest TDF heard bounds |
| Hysteresis.DropsAreBounded | virtualagent/MemoryDatabase.cpp:63-77 | k drops without a raise bring the TDF to at most (1-c)^k of its start |
| Hysteresis.CompoundIsPower | virtualagent/MemoryDatabase.cpp:63-77 | k steps at one rate are the start times the k-th power of the rate |
| ReplicaAgreement.LastMessageWins | virtualagent/MemoryDatabase.cpp:55-57 | over every run the table holds the last message of each host |
| ReplicaAgreement.HeardNearMax | virtualagent/MemoryDatabase.cpp:63-77 | after any message the TDF in force is within the threshold of the table's maximum |
| ReplicaAgreement.ReplicasAgree | virtualagent/MemoryDatabase.cpp:46-79 | two agents that hear the same messages per host, however interleaved, end with equal tables and with TDFs that differ by a factor less than (1+c)/(1-c) |
| ReplicaAgreement.EqualExactlyIfSpaced | virtualagent/MemoryDatabase.cpp:63-77 | agents with empty tables, TDFs in force and announcements from a set, always end with equal TDFs after the same messages if and only if any two TDFs v, w of the set differ by at least c times v |
| ReplicaAgreement.SpacedReplicasAgree | virtualagent/MemoryDatabase.cpp:46-79 | from any equal tables with values from such a set, the same messages lead to equal TDFs in force |
| ReplicaAgreement.ReplicasMayDiffer | virtualagent/MemoryDatabase.cpp:70-72 | two interleavings after which the adopted TDFs differ |
| Replicas.MovesHear | virtualagent/MemoryDatabase.cpp:46-79 | whatever the applier does in between, the table is what the announcements alone make of it |
| Replicas.WaitingAgentsAgree | virtualagent/VirtualTime.cpp:69-105 | two agents that heard the same messages and both wait with nothing missed hold TDFs in shared memory within a factor less than (1+c)/(1-c), whatever the interleavings |
| Replicas.WaitingAgentsEqual | virtualagent/VirtualTime.cpp:69-105 | they hold equal TDFs if these come from a spaced set |
| Controllers.LoadStepDirection | virtualagent/CpuMonitor.cpp:89-105 | the TDF stays within its limits, never falls while averaged idle is at or below target and never rises while it is at or above |
| Controllers.LoadStepMoves | virtualagent/CpuMonitor.cpp:89-105 | a step moves the TDF against the error e, where e times the target load is the distance of the averaged idle ratio from its target, by changeSlope times the n-th power of 2e, and stops at the limits |
| Controllers.LoadMoveIsScaledPower | virtualagent/CpuMonitor.cpp:91-97 | the move is changeSlope times the n-th power of twice the error, against the error |
| Controllers.LoadStepIsSmall | virtualagent/CpuMonitor.cpp:89-105 | one step moves the TDF by at most changeSlope while the error is at most one half |
| Controllers.LoadMoveWithinSlope | virtualagent/CpuMonitor.cpp:91-97 | before clamping the move is within changeSlope if and only if the error is at most one half |
| Controllers.DelayAverageMoves | virtualagent/CpuMonitor.cpp:127 | one truncated average: strictly down to no less than the input from above; up to no more than the input from below, standing still exactly when the gap is less than 1/alpha |
| Controllers.AverageSettles | virtualagent/CpuMonitor.cpp:125-127 | under constant input the average is a fixed point after as many updates as the initial distance: the input itself from above, less than 1/alpha short of it from below |
| Controllers.SimMoveIsWholeQuanta | virtualagent/CpuMonitor.cpp:130 | an average off its target moves tdfSim by at least gain/targetDelay in the right direction |
| Controllers.SimMoveIsExact | virtualagent/CpuMonitor.cpp:130 | the move is so many times gain/targetDelay as the average is units off the target; at twice the target it is the gain |
| Controllers.SettledRunIsLinear | virtualagent/CpuMonitor.cpp:122-137 | once the average has settled, k updates move tdfSim by exactly k equal strides, up to its limits |
| Controllers.SettledRunSaturatesExactly | virtualagent/CpuMonitor.cpp:122-137 | a limit is then reached if and only if the strides cross the range |
| Controllers.SimRunIsGradual | virtualagent/CpuMonitor.cpp:122-137 | from any average, k updates move tdfSim up by at most k strides of the farthest average, so that saturating takes at least that many |
| Controllers.SimControllerSaturates | virtualagent/CpuMonitor.cpp:122-137 | from any average, a delay held at least 1/alpha above the target drives tdfSim to tdfMax within a computed number of updates and keeps it there; one below the target drives it to tdfMin |
| Controllers.DeadBand | virtualagent/CpuMonitor.cpp:122-137 | from an average on the target, a delay less than 1/alpha above it never moves the average or tdfSim |
| Controllers.SimControllerEndsAt | virtualagent/CpuMonitor.cpp:122-137 | from an average on the target, where the program starts, tdfSim ends at tdfMax if the delay is at least 1/alpha above the target, at tdfMin if it is below, and where it was otherwise |
| CpuIdle.RatioInUnit | virtualagent/CpuMonitor.cpp:216-237 | replacing zero counters by one and 0/0 by the plain ratio keeps every ratio in [0, 1] |
| CpuIdle.MinRatioIsLeastShare | virtualagent/CpuMonitor.cpp:216-246 | every CPU idled at least the returned share of the time it ran since the last sample, and some CPU exactly that share; of the time since its start if it did not run |
| CpuIdle.MinRatioExtremes | virtualagent/CpuMonitor.cpp:216-246 | with consistent counters the minimum is 1 if and only if every CPU idled all the time, and 0 if and only if some CPU did not idle |
| CpuIdle.MinRatio | virtualagent/CpuMonitor.cpp:243-246 | the result is some CPU's ratio and at most every CPU's |
| CpuIdle.MinRatioInUnit | virtualagent/CpuMonitor.cpp:204-253 | consistent counters give a defined minimum in [0, 1] |
| CpuMonitors.CpuMonitor.constructor | virtualagent/CpuMonitor.cpp:30-70 | the initial averages, TDFs and stored counters, zeros replaced |
| CpuMonitors.CpuMonitor.GetMinXCpuIdleRatio | virtualagent/CpuMonitor.cpp:204-253 | the loop returns the least share that a CPU idled against last time's counters, and stores this time's |
| CpuMonitors.CpuMonitor.WatchLoad | virtualagent/CpuMonitor.cpp:77-106 | the load part: minimum, moving average, controller, clamp |
| CpuMonitors.CpuMonitor.WatchSimulator | virtualagent/CpuMonitor.cpp:108-144 | the simulator part: a report at least 10 s off resets tdfSim to tdfMin, a fresh one moves average and TDF |
| CpuMonitors.CpuMonitor.Iterate | virtualagent/CpuMonitor.cpp:75-175 | one iteration: which parts apply, and the TDF that is broadcast, if any |
| CpuMonitors.Required | virtualagent/CpuMonitor.cpp:146-163 | the broadcast TDF is one of the three candidates, in mode 2 the larger of the two, in an unknown mode tdfMin |
| CpuMonitors.BroadcastsInRange | virtualagent/CpuMonitor.cpp:101-163 | under fixed limits, whatever the samples, TDFs and broadcasts stay in [tdfMin, tdfMax] |
| CpuMonitors.NewLimitsTakeEffect | virtualagent/CpuMonitor.cpp:101-163 | whatever the TDFs were, the next broadcast lies within the limits of its iteration |
| CpuMonitors.BroadcastMoves | virtualagent/CpuMonitor.cpp:89-105 | one broadcast of mode 0 follows the one before by the clamped move |
| CpuMonitors.BroadcastFollowsLoad | virtualagent/CpuMonitor.cpp:77-106 | with the load controller alone, the broadcast does not fall while the averaged idle ratio is at or below its target, and does not rise while it is at or above |
| CpuMonitors.StaleReportIsIgnored | virtualagent/CpuMonitor.cpp:114-141 | a report ten seconds off or more leaves the delay average alone; mode 2 then broadcasts the load controller's TDF and mode 1 tdfMin |
| CpuMonitors.IdleRatiosInUnit | virtualagent/CpuMonitor.cpp:204-267 | over every run of growing counters, whatever the modes, all ratios are defined and the moving average stays in [0, 1] |
| CpuMonitors.MonitorSaturates | virtualagent/CpuMonitor.cpp:108-163 | a monitor that keeps seeing one delay ends up broadcasting tdfMax for good if the delay is at least 1/alpha above the target, and otherwise what it would without the simulator: the load controller's TDF in mode 2, tdfMin in mode 1 |
| LoadRuns.RunExists | virtualagent/CpuMonitor.cpp:75-175 | growing counters give a defined state after every sample |
| LoadRuns.CurrentIdleIsLeastShare | virtualagent/CpuMonitor.cpp:204-253 | over every run the current ratio is the least share that a CPU idled since the sample before |
| LoadRuns.IdleAverageDecays | virtualagent/CpuMonitor.cpp:255-267 | under a constant idle ratio the distance of the average from it shrinks by the factor 1-alpha with each sample |
| LoadRuns.LoadSaturates | virtualagent/CpuMonitor.cpp:77-106 | averaged idle held a gap below its target makes the broadcast of modes 0 and 2 reach tdfMax within a computed number of iterations and stay there; held above, that of mode 0 reaches tdfMin |
| LoadRuns.LoadDecidesBroadcast | virtualagent/CpuMonitor.cpp:77-106 | the same from the samples: some CPU keeps idling less than the target by a gap, or all keep idling more |
| LoadRuns.IdleHostStaysFast | virtualagent/CpuMonitor.cpp:30-106 | a host all of whose CPUs idle from the start keeps broadcasting tdfMin in mode 0 |
| LoadRuns.ModesCombine | virtualagent/CpuMonitor.cpp:77-163 | over every run mode 2 broadcasts the larger of what modes 0 and 1 would on the same samples |
| VirtualTime.OwnStepKeepsInv | virtualagent/VirtualTime.cpp:44-105 | what each step of the applier keeps, phase by phase |
| VirtualTime.MoveKeepsInv | virtualagent/VirtualTime.cpp:69-105 | every step of any thread keeps the invariant |
| VirtualTime.WaitingIsCurrent | virtualagent/VirtualTime.cpp:76-77 | in every interleaving, waiting with no wakeup pending and none missed means that shared memory holds the TDF in force |
| VirtualTime.SharedWasInForce | virtualagent/VirtualTime.cpp:85-90 | the shared TDF is 1.0 or one that was in force in an earlier state |
| VirtualTime.HostsRunWithClock | virtualagent/VirtualTime.cpp:79-104 | in every reachable state the clock is stopped exactly inside a pass, and so are the hosts meanwhile exactly if suspensions are enabled |
| VirtualTime.PassAppliesLatest | virtualagent/VirtualTime.cpp:79-104 | the TDF is written only with the clock frozen and, if suspensions are enabled, the hosts stopped; every pass ends with memory and links at the TDF in force |
| VirtualTime.LostBeforeLockExactly | virtualagent/VirtualTime.cpp:58-77 | for any set of phases: every behaviour whose notifies arrive only in these phases waits with the TDF in force in shared memory, if and only if the set has neither the phase before the loop nor the one between two iterations |
| VirtualTime.WakeupCanBeMissed | virtualagent/VirtualTime.cpp:58-77 | for either of the two phases a run in which a TDF enforced then is not applied although the applier waits |
| VirtualTime.NeverStuck | virtualagent/VirtualTime.cpp:58-105 | unless it waits or has ended the applier can take a step that brings it nearer to the wait |
| VirtualTime.WakeupLeadsToWait | virtualagent/VirtualTime.cpp:69-105 | from any reachable state with a wakeup pending ten steps of the applier alone lead to a wait with memory, links, clock and hosts as the TDF in force demands |
| VirtualTime.EnforcedIsApplied | virtualagent/MemoryDatabase.cpp:229-239 | of any TDFs enforced one after the other while the applier waits the last is, by its own steps alone, applied |
| VirtualTime.ShutdownGetsThrough | virtualagent/VirtualAgent.cpp:81-88 | the notify at shutdown gets a waiting applier to its end, with the TDF in force applied and clock and hosts running |
| VirtualTime.EighthStepApplies | virtualagent/VirtualTime.cpp:76-105 | in any interleaving after a wakeup the applier's eighth step completes a pass that applied the TDF in force |
| Applier.VirtualTime.Start | virtualagent/VirtualTime.cpp:44-56 | the clock resumes where it was and the hosts are released |
| Applier.VirtualTime.Pass | virtualagent/VirtualTime.cpp:79-104 | one pass on the objects: the TDF in force is in shared memory and on every kept link, the clock is stopped, set and started and shows afterwards what it showed before, and the hosts are released again |
| InterfaceConfigurators.ChangeToDilates | virtualagent/InterfaceConfigurator.cpp:110-146 | the commands set the rate divided by the TDF and the delay multiplied by it, both rounded toward zero, and the undilated rate as burst |
| InterfaceConfigurators.DilationIsUnique | virtualagent/InterfaceConfigurator.cpp:110-111 | an entry and a TDF determine the action |
| InterfaceConfigurators.BandwidthDelayKept | virtualagent/InterfaceConfigurator.cpp:110-111 | the rate times the delay that an action sets is that of the entry, less at most rate/tdf + delay tdf, and never more |
| InterfaceConfigurators.InterfaceAttributeTable.Set | virtualagent/MemoryDatabase.cpp:173-188 | the interface has a new entry, flagged to be kept |
| InterfaceConfigurators.InterfaceAttributeTable.SetFlagKeep | virtualagent/MemoryDatabase.cpp:196-199 | only the flag of that interface changes |
| InterfaceConfigurators.InterfaceAttributeTable.Erase | virtualagent/MemoryDatabase.cpp:201-204 | that entry goes |
| InterfaceConfigurators.InterfaceConfigurator.UpdateInterfaceAttribute | virtualagent/InterfaceConfigurator.cpp:172-209 | iterate and erase leaves exactly the kept interfaces and issues exactly one action for each original one: a kept link gets its dilated rate and delay, any other is deleted |
| InterfaceConfigurators.NoneLeftOut | virtualagent/InterfaceConfigurator.cpp:172-209 | so many actions on distinct interfaces leave none out |
| EndToEnd.ActKeepsInv | virtualagent/VirtualAgent.cpp:72-88 | every act of monitors, other threads, applier and time keeps the limits and the clock's history |
| EndToEnd.TdfsStayInLimits | virtualagent/MemoryDatabase.cpp:42-79 | in every reachable state the TDF in force and the clock's TDF lie in [tdfMin, tdfMax] or are the initial 1.0 |
| EndToEnd.VirtualTimeAdvances | virtualagent/VirtualTime.cpp:59-106 | over every run of the whole system virtual time never goes back, and never outruns real time when tdfMin is at least one |
| EndToEnd.VirtualTimeIsLedger | virtualagent/VirtualTime.cpp:59-106 | virtual time is the initial value plus the whole dilated progress of each period between passes |
| EndToEnd.SlopeWithinLimits | virtualagent/CpuMonitor.cpp:101-163 | with 1 <= tdfMin the slope of the running clock lies in [1/tdfMax, 1], up to less than one unit |
| EndToEnd.TimeOfDayAdvances | virtualagent/shared/qemu-timer.c:237-246 | vm_gettimeofday yields non-decreasing pairs in any two states of a run of the system |
| EndToEnd.PassIsAtomic | virtualagent/VirtualTime.cpp:76-105 | however a pass is interleaved with other threads and with time, it has the effect of one uninterrupted pass on clock, shared TDF, links and gate |
| EndToEnd.BroadcastReachesClock | virtualagent/VirtualAgent.cpp:72-88 | from any reachable state in which the applier waits, a broadcast that the table adopts can reach the clock, which then runs with the new maximum |
| RawMessages.DecodeHeader | virtualagent/net/RawMessage.hpp:80-92 | any bytes leave a body length of at most 512 |
| RawMessages.HeaderRoundTrip | virtualagent/net/RawMessage.hpp:80-100 | every allowed length is encoded in exactly four bytes that decode to it |
| RawMessages.DecodeAccepts | virtualagent/net/RawMessage.hpp:80-92 | a header is accepted exactly when it spells a number in [0, 512], otherwise the length is 0; an accepted length survives encoding |
| RawMessages.HeaderIsRightAligned | virtualagent/net/RawMessage.hpp:94-100 | the header is spaces and then the digits of the length, without leading zeros, up to the end |
| RawMessages.AtoiReads | virtualagent/net/RawMessage.hpp:80-92 | white space, an optional sign, any number and anything behind it decode to that number |
| RawMessages.RawMessage.SetBodyLength | virtualagent/net/RawMessage.hpp:73-78 | the length is capped at 512 |
| RawMessages.RawMessage.EncodeHeaderInPlace | virtualagent/net/RawMessage.hpp:94-100 | the header is written and the rest of the buffer stays |
| RawMessages.RawMessage.DecodeHeaderInPlace | virtualagent/net/RawMessage.hpp:80-92 | the length and the verdict for the bytes in the buffer |
| RawMessages.RawMessage.Compose | virtualagent/net/chat_client.cpp:175-178 | the bytes to send are the header for the body's length, then the body |
| Framing.FramingRoundTrip | virtualagent/net/TcpSession.cpp:51-75 | whatever follows, the reader gets each framed body up to its first NUL, in order, and continues with what follows |
| Framing.RoundTripIsExact | virtualagent/net/TcpSession.cpp:62-66 | the list read is the list sent if and only if no body contains a NUL |
| Framing.BrokenStreamGivesPrefix | virtualagent/net/TcpSession.cpp:51-75 | a stream that breaks off delivers a prefix of the messages the longer stream delivers |
| Delivery.DeliveredKeepsInv | virtualagent/net/TcpSession.cpp:39-49 | handing over a message keeps the queue's invariant |
| Delivery.WrittenKeepsInv | virtualagent/net/TcpSession.cpp:77-90 | so does a completed or failed write |
| Delivery.QueueDrains | virtualagent/net/TcpSession.cpp:77-90 | each completed write takes the front of the queue, and as many as there are messages empty it |
| Delivery.RunsKeepInv | virtualagent/net/TcpConnectionManager.cpp:22-39 | over every run the history is the last min(100, n) messages, completed writes and queue are what was handed over, and a write for the front is outstanding exactly when the queue is not empty and no write failed |
| Delivery.ParticipantIsHandedAll | virtualagent/net/TcpConnectionManager.cpp:32-39 | a participant that stays is handed every message once, in order |
| Delivery.JoinerIsHandedTheRest | virtualagent/net/TcpConnectionManager.cpp:22-26 | a session that joins after n deliveries is handed, while it stays, exactly the messages from max(0, n-100) onward |
| Delivery.LeaverIsHandedNothing | virtualagent/net/TcpConnectionManager.cpp:28-39 | a session that leaves, or whose write fails, is handed nothing more until it joins again |
| TcpSessions.TcpSession.Deliver | virtualagent/net/TcpSession.cpp:39-49 | the message is queued, and a write is started exactly if none was in progress |
| TcpSessions.TcpSession.HandleWrite | virtualagent/net/TcpSession.cpp:77-90 | the next write starts, or the session leaves |
| TcpSessions.TcpSession.HandleReadHeader | virtualagent/net/TcpSession.cpp:51-60 | the body length to read next, or the session leaves |
| TcpSessions.TcpSession.HandleReadBody | virtualagent/net/TcpSession.cpp:62-75 | the terminated buffer yields the body up to its first NUL |
| TcpSessions.TcpSession.ReadAll | virtualagent/net/TcpSession.cpp:31-75 | the chain of reads through one reused buffer delivers exactly the messages of the stream |
| TcpSessions.TcpConnectionManager.Join | virtualagent/net/TcpConnectionManager.cpp:22-26 | the newcomer is handed the history in order: the join step of the delivery state machine |
| TcpSessions.TcpConnectionManager.Leave | virtualagent/net/TcpConnectionManager.cpp:28-30 | the participant is gone: its leave step |
| TcpSessions.TcpConnectionManager.Deliver | virtualagent/net/TcpConnectionManager.cpp:32-39 | the trimming loop keeps the last 100 messages, and every participant is handed the message once: its deliver step |
| TcpSessions.TcpConnectionManager.HandleWrite | virtualagent/net/TcpSession.cpp:77-90 | a completed write starts the next, a failed one makes the session leave: its write steps |
| TcpSessions.ManagerKeepsInv | virtualagent/net/TcpConnectionManager.cpp:22-39 | whatever calls the objects went through, the history is the last min(100, n) messages, and each session's completed writes and queue are what it was handed |
| TcpSessions.SessionGetsTheRest | virtualagent/net/TcpConnectionManager.cpp:22-39 | a session object that joined once after n deliveries, and stayed, has written or queued exactly the messages from max(0, n-100) onward |
| MessageProcessors.MessageProcessor.ParseUdpMsg | virtualagent/MessageProcessor.cpp:39-89 | what protocols 3 and 10 change and notify, and that protocol 3 configures the link dilated by the TDF in force; a wrong number of tokens changes nothing |
| MessageProcessors.MessageProcessor.ParseTcpMsg | virtualagent/MessageProcessor.cpp:91-383 | what protocols 1, 2, 11, 12, 13, 14, 23 and 28 change, and that protocol 1 installs the link undilated; a wrong number of tokens changes nothing |
| MessageProcessors.EnforcedTdfHolds | virtualagent/MessageProcessor.cpp:144-156 | an enforced TDF stays in force over every sequence of messages without a well-formed protocol 11 or 12 |
| MessageProcessors.DisablingHolds | virtualagent/MessageProcessor.cpp:171-182 | after protocol 13 the TDF in force stays over every sequence of messages without a well-formed protocol 11 or 12 |
| MessageProcessors.EnabledTableFollows | virtualagent/MessageProcessor.cpp:158-169 | after protocols 23 and 12 every announcement counts: from the first on the TDF in force is within the threshold set of the table's maximum |
| MessageProcessors.LimitsAreLastSet | virtualagent/MessageProcessor.cpp:184-198 | over every sequence of messages the limits are those that protocol 14 last set |
| MessageProcessors.LimitsBoundBroadcast | virtualagent/MessageProcessor.cpp:184-198 | the first of them bounds the next broadcast from below and the second from above |
| MessageProcessors.TableHoldsAnnouncements | virtualagent/MessageProcessor.cpp:50-63 | over every sequence of messages the table holds what each host last announced since it was cleared |
| MessageProcessors.PassKeepsInstalled | virtualagent/MessageProcessor.cpp:103-142 | over every sequence of messages, a following pass keeps an interface exactly if it was installed and not flagged since, with the rate and delay it was last installed with |

## Left out

- Shared memory, semaphores, sockets, processes, logging, signals and daemonising: system calls are fields, parameters or recorded actions.
- Floating-point rounding, signed zeros and 64-bit overflow: arithmetic is exact.
- Number text: messages carry the numbers that `atof` and `atoll` read; printing a TDF with limited precision is not modelled, nor is splitting at separators.
- Controllers.LoadMoveIsScaledPower: `pow` is modelled for natural exponents only; the default exponent is 4.
- CpuIdle.RatioInUnit: a quotient with a zero divisor and a non-zero dividend, infinite in the program, is outside the model; counters that grow consistently do not produce it.
- CpuMonitors.CpuMonitor.GetMinXCpuIdleRatio: excludes those infinite quotients, hence counters whose total stands still while the idle count does not.
- CpuMonitors.CpuMonitor.WatchLoad: excludes those too, and a zero target load, which is a division by zero.
- CpuMonitors.CpuMonitor.WatchSimulator: a zero target delay divides by zero and is excluded.
- CpuMonitors.CpuMonitor.Iterate: excludes what its two parts exclude.
- TimersStates.TimersState.SetTdf: demands a frozen clock, which the program does not check; `VirtualTime.PassAppliesLatest` shows that the applier's only write meets it.
- ClockReader.ToleratesExactlyOneToggle: enabling and disabling are single steps; a reader between the writes inside them is not modelled.
- VirtualTime.WaitingIsCurrent: protocols 30 and 31, which toggle the clock without the table's mutex, and a change of the suspension setting in the middle of a pass are absent.
- EndToEnd.TdfsStayInLimits: the limits are fixed and no enforcement leaves them; protocol 14 changes the limits on a running system.
- TickCounter.TicksLoseAtMostFalls: covers reads of one enabled period; enabling does not refresh the previous raw value, so a fall while frozen is corrected at the first read after it.
- Applier.VirtualTime.Pass: demands a positive TDF in force, although protocol 11 can enforce any number; zero makes the clock divide by zero, and a negative one makes it run backwards.
- InterfaceConfigurators.InterfaceConfigurator.UpdateInterfaceAttribute: a TDF of zero, by which rates are divided, is excluded; interfaces are visited in an arbitrary order, not by name; the commands of one interface are one action; other threads do not edit the map meanwhile.
- TcpSessions.TcpSession.HandleReadBody: the buffer has one byte more than `data_`, because the terminator of a 512-byte body lies one byte behind it.
- TcpSessions.TcpSession.HandleWrite: the call of `leave` after a failed write is the method's result; `TcpSessions.TcpConnectionManager.HandleWrite` makes it.
- TcpSessions.TcpConnectionManager.Join: takes sessions that are new or joined this manager before, as its sessions are; a session has no second manager.
- MessageProcessors.MessageProcessor.ParseUdpMsg: protocol 3 with a TDF of zero in force divides by zero and is excluded.
- MessageProcessors.MessageProcessor.ParseTcpMsg: protocols 20 to 22, 24 to 27 and 30 to 33 only assign settings that are not part of this state, or toggle the clock, and count as unknown; protocol 2 for an interface that is not in the table follows a null pointer and is excluded.
- CpuLogger, TimeGetter, the UDP clients and the programs with a main function.
