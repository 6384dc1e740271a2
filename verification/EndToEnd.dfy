/** One agent as a whole: the monitors of all hosts broadcast TDFs, the agent's table adopts them,
    the applier writes the adopted one to shared memory with the clock frozen, and the clock runs
    with it. The configuration is fixed, and nobody but the applier toggles the clock. */
module EndToEnd {
  import opened Arith
  import opened Wrappers
  import opened VirtualClock
  import opened TdfTables
  import opened Controllers
  import opened CpuMonitors
  import VT = VirtualTime

  datatype System = System(
    agent: VT.Agent,
    clock: ClockState,
    now: int,                       // the time source
    events: seq<ClockEvent>,        // all that happened to the clock
    monitors: map<string, Monitor>, // one per host
    air: set<Update>)               // all that was ever broadcast

  datatype Act =
    | Agent(move: VT.Move)
    | Elapse(duration: nat)
    | Observe(host: string, sample: Sample)

  ghost predicate Init(cfg: Config, initial: int, s: System) {
    && VT.Init(s.agent)
    && s.clock == Created(initial) && s.events == [] && s.air == {}
    && forall h :: h in s.monitors ==> InRange(cfg, s.monitors[h])
  }

  /** Messages are heard after they were broadcast, in any order, lost or repeated. No enforcement
      leaves the limits. */
  predicate Enabled(cfg: Config, s: System, act: Act) {
    match act
    case Elapse(_) => true
    case Observe(host, sample) => host in s.monitors && Runs(cfg, s.monitors[host], sample)
    case Agent(m) =>
      && VT.Enabled(s.agent, m)
      && (m.Database? && m.op.Hear? ==> m.op.update in s.air)
      && (m.Database? && m.op.Enforce? ==> cfg.tdfMin <= m.op.tdf <= cfg.tdfMax)
  }

  /** What a step of the applier does to the clock. */
  function ClockEffect(a: VT.Agent, m: VT.Move, now: int): Option<ClockEvent> {
    if !m.Own? then None
    else
      match m.step
      case Start => Some(Enable(now))
      case StopClock => Some(Disable(now))
      case WriteTdf => if 0.0 < a.newTdf then Some(SetTdf(now, a.newTdf)) else None
      case StartClock => Some(Enable(now))
      case _ => None
  }

  function WithEffect(s: System, effect: Option<ClockEvent>): System {
    if effect.None? then s
    else s.(clock := Step(s.clock, effect.value), events := s.events + [effect.value])
  }

  function Observed(cfg: Config, s: System, host: string, sample: Sample): System
    requires host in s.monitors && Runs(cfg, s.monitors[host], sample)
  {
    var m := Watched(cfg, s.monitors[host], sample);
    s.(monitors := s.monitors[host := m],
       air := if cfg.isLoadMonitored then s.air + {Update(host, Required(cfg, m))} else s.air)
  }

  ghost function Apply(cfg: Config, s: System, act: Act): System
    requires Enabled(cfg, s, act)
  {
    match act
    case Elapse(duration) => s.(now := s.now + duration)
    case Observe(host, sample) => Observed(cfg, s, host, sample)
    case Agent(m) => WithEffect(s, ClockEffect(s.agent, m, s.now)).(agent := VT.Apply(s.agent, m))
  }

  ghost predicate Next(cfg: Config, s: System, s': System) {
    exists act :: Enabled(cfg, s, act) && s' == Apply(cfg, s, act)
  }

  ghost predicate Behaviour(cfg: Config, initial: int, b: seq<System>) {
    && b != [] && Init(cfg, initial, b[0])
    && forall k :: 0 <= k < |b| - 1 ==> Next(cfg, b[k], b[k + 1])
  }

  predicate Limits(cfg: Config) {
    0.0 < cfg.tdfMin <= cfg.tdfMax
  }

  /** A TDF that can be in force: a broadcast one, or the initial 1.0. */
  predicate Allowed(cfg: Config, v: real) {
    v == 1.0 || cfg.tdfMin <= v <= cfg.tdfMax
  }

  ghost predicate ValuesInv(cfg: Config, s: System) {
    && (forall u :: u in s.air ==> cfg.tdfMin <= u.tdf <= cfg.tdfMax)
    && (forall h :: h in s.monitors ==> InRange(cfg, s.monitors[h]))
    && (forall h :: h in s.agent.table.tdfs ==> cfg.tdfMin <= s.agent.table.tdfs[h] <= cfg.tdfMax)
    && (forall v :: v in s.agent.held ==> Allowed(cfg, v))
  }

  /** The clock is the one that went through the recorded events, and the agent knows its state. */
  ghost predicate ClockInv(initial: int, s: System) {
    && s.clock == Run(Created(initial), s.events)
    && WellFormed(Created(initial), s.events)
    && (s.events != [] ==> s.events[|s.events| - 1].at <= s.now)
    && s.clock.enabled == s.agent.ticking
    && s.clock.tdf == s.agent.shared
  }

  ghost predicate Inv(cfg: Config, initial: int, s: System) {
    VT.Inv(s.agent) && ValuesInv(cfg, s) && ClockInv(initial, s)
  }

  // ---- Each kind of act keeps the invariant ----

  lemma ObserveKeepsInv(cfg: Config, initial: int, s: System, host: string, sample: Sample)
    requires Limits(cfg) && Inv(cfg, initial, s) && Enabled(cfg, s, Observe(host, sample))
    ensures Inv(cfg, initial, Observed(cfg, s, host, sample))
  {
    BroadcastsInRange(cfg, s.monitors[host], sample);
  }

  lemma HeardStaysInLimits(cfg: Config, t: Table, u: Update, c: real)
    requires forall h :: h in t.tdfs ==> cfg.tdfMin <= t.tdfs[h] <= cfg.tdfMax
    requires cfg.tdfMin <= u.tdf <= cfg.tdfMax
    ensures var t' := Heard(t, u, c);
            && (forall h :: h in t'.tdfs ==> cfg.tdfMin <= t'.tdfs[h] <= cfg.tdfMax)
            && (t'.latest == t.latest || cfg.tdfMin <= t'.latest <= cfg.tdfMax)
  {
    var h :| h in Recorded(t, u) && Recorded(t, u)[h] == MaxOf(Recorded(t, u));
  }

  /** The values an operation on the table can put in force. */
  lemma OperationKeepsLimits(cfg: Config, s: System, op: Operation)
    requires ValuesInv(cfg, s) && VT.Inv(s.agent) && Enabled(cfg, s, Agent(VT.Database(op)))
    ensures var a' := VT.Operated(s.agent, op);
            && (forall h :: h in a'.table.tdfs ==> cfg.tdfMin <= a'.table.tdfs[h] <= cfg.tdfMax)
            && (forall v :: v in a'.held ==> Allowed(cfg, v))
            && a'.ticking == s.agent.ticking && a'.shared == s.agent.shared
  {
    match op
    case Hear(u) => HeardStaysInLimits(cfg, s.agent.table, u, s.agent.threshold);
    case _ =>
  }

  lemma EffectKeepsClock(initial: int, s: System, e: ClockEvent)
    requires s.clock == Run(Created(initial), s.events) && WellFormed(Created(initial), s.events)
    requires s.events != [] ==> s.events[|s.events| - 1].at <= s.now
    requires e.at == s.now && Permitted(s.clock, e)
    ensures var s' := WithEffect(s, Some(e));
            && s'.clock == Run(Created(initial), s'.events)
            && WellFormed(Created(initial), s'.events)
  {
    ExtendRun(Created(initial), s.events, e);
  }

  lemma OwnStepKeepsClock(cfg: Config, initial: int, s: System, step: VT.Step)
    requires Limits(cfg) && Inv(cfg, initial, s) && VT.Enabled(s.agent, VT.Own(step))
    ensures ClockInv(initial, Apply(cfg, s, Agent(VT.Own(step))))
    ensures VT.OwnStep(s.agent, step).table == s.agent.table
  {
    var effect := ClockEffect(s.agent, VT.Own(step), s.now);
    VT.OwnStepKeepsInv(s.agent, step);
    assert step.WriteTdf? ==> s.agent.newTdf in s.agent.held;
    if effect.Some? {
      EffectKeepsClock(initial, s, effect.value);
    }
  }

  lemma ActKeepsInv(cfg: Config, initial: int, s: System, act: Act)
    requires Limits(cfg) && Inv(cfg, initial, s) && Enabled(cfg, s, act)
    ensures Inv(cfg, initial, Apply(cfg, s, act))
  {
    match act
    case Elapse(_) =>
    case Observe(host, sample) => ObserveKeepsInv(cfg, initial, s, host, sample);
    case Agent(m) =>
      VT.MoveKeepsInv(s.agent, m);
      match m
      case Own(step) =>
        VT.OwnStepKeepsInv(s.agent, step);
        OwnStepKeepsClock(cfg, initial, s, step);
      case Database(op) => OperationKeepsLimits(cfg, s, op);
      case Spurious =>
  }

  lemma {:induction false} BehaviourKeepsInv(cfg: Config, initial: int, b: seq<System>, k: nat)
    requires Limits(cfg) && Behaviour(cfg, initial, b) && k < |b|
    ensures Inv(cfg, initial, b[k])
  {
    if k > 0 {
      BehaviourKeepsInv(cfg, initial, b, k - 1);
      assert Next(cfg, b[k - 1], b[(k - 1) + 1]);
      var act :| Enabled(cfg, b[k - 1], act) && b[k] == Apply(cfg, b[k - 1], act);
      ActKeepsInv(cfg, initial, b[k - 1], act);
    }
  }

  // ---- The theorems ----

  /** In every reachable state, the TDF in force and the one in shared memory, which is the clock's,
      lie within the configured limits, or are the initial 1.0. */
  lemma TdfsStayInLimits(cfg: Config, initial: int, b: seq<System>, k: nat)
    requires Limits(cfg) && Behaviour(cfg, initial, b) && k < |b|
    ensures Allowed(cfg, b[k].agent.table.latest) && Allowed(cfg, b[k].agent.shared)
    ensures b[k].clock.tdf == b[k].agent.shared
  {
    BehaviourKeepsInv(cfg, initial, b, k);
  }

  /** The virtual time of a state. */
  function VirtualTimeOf(s: System): int {
    Reading(s.clock, s.now)
  }

  lemma ActMovesTime(cfg: Config, initial: int, s: System, act: Act)
    requires Limits(cfg) && Inv(cfg, initial, s) && Enabled(cfg, s, act)
    ensures var s' := Apply(cfg, s, act);
            && VirtualTimeOf(s) <= VirtualTimeOf(s')
            && (1.0 <= s.clock.tdf ==> VirtualTimeOf(s') - VirtualTimeOf(s) <= s'.now - s.now)
  {
    match act
    case Elapse(duration) => ReadingBetween(s.clock, s.now, s.now + duration);
    case Observe(_, _) =>
    case Agent(m) =>
      var effect := ClockEffect(s.agent, m, s.now);
      if effect.Some? {
        StepIsContinuous(s.clock, effect.value);
      }
  }

  /** End to end: over every run of the whole system the virtual time never goes back; and if
      tdfMin is at least one, the virtual time between two states is at most the real time. */
  lemma VirtualTimeAdvances(cfg: Config, initial: int, b: seq<System>, i: nat, j: nat)
    requires Limits(cfg) && Behaviour(cfg, initial, b) && i <= j < |b|
    ensures VirtualTimeOf(b[i]) <= VirtualTimeOf(b[j])
    ensures 1.0 <= cfg.tdfMin ==> VirtualTimeOf(b[j]) - VirtualTimeOf(b[i]) <= b[j].now - b[i].now
  {
    var shown := seq(|b|, k requires 0 <= k < |b| => VirtualTimeOf(b[k]));
    var times := seq(|b|, k requires 0 <= k < |b| => b[k].now);
    forall k | 0 <= k < |b| - 1
      ensures shown[k] <= shown[k + 1]
      ensures 1.0 <= cfg.tdfMin ==> shown[k + 1] - shown[k] <= times[k + 1] - times[k]
    {
      TimeMovesNext(cfg, initial, b, k);
    }
    Chained(shown, times, 1.0 <= cfg.tdfMin, i, j);
  }

  lemma TimeMovesNext(cfg: Config, initial: int, b: seq<System>, k: nat)
    requires Limits(cfg) && Behaviour(cfg, initial, b) && k + 1 < |b|
    ensures VirtualTimeOf(b[k]) <= VirtualTimeOf(b[k + 1])
    ensures 1.0 <= cfg.tdfMin ==> VirtualTimeOf(b[k + 1]) - VirtualTimeOf(b[k]) <= b[k + 1].now - b[k].now
  {
    BehaviourKeepsInv(cfg, initial, b, k);
    TdfsStayInLimits(cfg, initial, b, k);
    assert Next(cfg, b[k], b[k + 1]);
    var act :| Enabled(cfg, b[k], act) && b[k + 1] == Apply(cfg, b[k], act);
    ActMovesTime(cfg, initial, b[k], act);
  }

  /** End to end: the virtual time is the initial value plus the whole dilated progress of each
      period between two passes of the applier. */
  lemma VirtualTimeIsLedger(cfg: Config, initial: int, b: seq<System>, k: nat)
    requires Limits(cfg) && Behaviour(cfg, initial, b) && k < |b| && 0 <= initial
    ensures VirtualTimeOf(b[k]) == initial + SumFloors(Periods(b[k].events, b[k].now))
  {
    BehaviourKeepsInv(cfg, initial, b, k);
    ClockRefinesLedger(initial, b[k].events, b[k].now);
  }

  /** End to end: while the clock runs its slope lies in [1/tdfMax, 1] when 1 <= tdfMin, that is,
      between two instants it advances by at most the real time and by more than that over tdfMax,
      less one. */
  lemma SlopeWithinLimits(cfg: Config, initial: int, b: seq<System>, k: nat, later: int)
    requires Limits(cfg) && 1.0 <= cfg.tdfMin && 0 <= initial
    requires Behaviour(cfg, initial, b) && k < |b| && b[k].clock.enabled && b[k].now <= later
    ensures var progress := Reading(b[k].clock, later) - VirtualTimeOf(b[k]);
            progress <= later - b[k].now && (later - b[k].now) as real / cfg.tdfMax - 1.0 < progress as real
  {
    var s := b[k];
    BehaviourKeepsInv(cfg, initial, b, k);
    TdfsStayInLimits(cfg, initial, b, k);
    RunKeepsLedger(initial, s.events, s.now);
    SlopeWhileEnabled(s.clock, s.now, later);
    ReadingBetween(s.clock, s.now, later);
    SmallerDivisor((later - s.now) as real, s.clock.tdf, cfg.tdfMax);
  }

  /** End to end: gettimeofday, called in any two states of a run, yields non-decreasing pairs. */
  lemma TimeOfDayAdvances(cfg: Config, initial: int, b: seq<System>, i: nat, j: nat)
    requires Limits(cfg) && Behaviour(cfg, initial, b) && i <= j < |b| && 0 <= initial
    ensures var t1, t2 := VirtualTimeOf(b[i]), VirtualTimeOf(b[j]);
            && 0 <= t1 && 0 <= MicrosPart(t1) <= 999_999
            && LexicographicallyAtMost(SecondsPart(t1), MicrosPart(t1), SecondsPart(t2), MicrosPart(t2))
  {
    BehaviourKeepsInv(cfg, initial, b, 0);
    VirtualTimeAdvances(cfg, initial, b, 0, i);
    VirtualTimeAdvances(cfg, initial, b, i, j);
    TimeOfDaySplits(VirtualTimeOf(b[i]));
    TimeOfDayMonotone(VirtualTimeOf(b[i]), VirtualTimeOf(b[j]));
  }

  // ---- A pass of the applier is atomic for the clock ----

  predicate InPass(p: VT.Phase) {
    p.Awake? || p.Stopped? || p.GateClosed? || p.HasTdf? || p.TdfWritten? || p.LinksUpdated? || p.Resumed?
  }

  /** The instants at which a pass stopped the clock, wrote the TDF and started the clock. */
  datatype Instants = Instants(stop: int, write: int, start: int)

  /** How far the clock has come in `s` when the pass began in `s0`. */
  ghost predicate ClockInPass(s0: System, s: System, t: Instants) {
    var tdf := s0.agent.table.latest;
    0.0 < tdf &&
    match s.agent.phase
    case Awake => s.clock == s0.clock && s.events == s0.events && s0.now <= s.now
    case Stopped | GateClosed | HasTdf =>
      && s.clock == Step(s0.clock, Disable(t.stop)) && s.events == s0.events + [Disable(t.stop)]
      && s0.now <= t.stop <= s.now
    case TdfWritten | LinksUpdated =>
      && s.clock == Step(Step(s0.clock, Disable(t.stop)), SetTdf(t.write, tdf))
      && s.events == s0.events + [Disable(t.stop), SetTdf(t.write, tdf)]
      && s0.now <= t.stop <= t.write <= s.now
    case Resumed | LoopTop =>
      && s.clock == AfterPass(s0.clock, t.stop, t.write, t.start, tdf)
      && s.events == s0.events + PassEvents(t.stop, t.write, t.start, tdf)
      && s0.now <= t.stop <= t.write <= t.start <= s.now
    case _ => false
  }

  /** What else holds in `s` when the pass began in `s0`: the TDF in force is still the same, and the
      hosts are stopped from the closing of the gate to the end, if at all. */
  ghost predicate AgentInPass(a0: VT.Agent, a: VT.Agent) {
    && a.table.latest == a0.table.latest && a.suspensions == a0.suspensions
    && a.gateOpen == (if a.phase.LoopTop? then a0.gateOpen || a0.suspensions
                      else if a.phase.Awake? || a.phase.Stopped? then a0.gateOpen
                      else a0.gateOpen && !a0.suspensions)
    && (a.phase.LoopTop? ==> a.shared == a.linkTdf == a.table.latest)
  }

  lemma AgentStepInPass(a0: VT.Agent, a: VT.Agent, step: VT.Step)
    requires VT.PhaseInv(a) && a.phase == VT.Precondition(step) && InPass(a.phase) && AgentInPass(a0, a)
    ensures AgentInPass(a0, VT.OwnStep(a, step))
  {
  }

  lemma ClockStepInPass(s0: System, s: System, step: VT.Step, t: Instants) returns (t': Instants)
    requires VT.PhaseInv(s.agent) && s.agent.phase == VT.Precondition(step) && InPass(s.agent.phase)
    requires ClockInPass(s0, s, t) && s.agent.table.latest == s0.agent.table.latest
    ensures var s' := WithEffect(s, ClockEffect(s.agent, VT.Own(step), s.now)).(agent := VT.OwnStep(s.agent, step));
            ClockInPass(s0, s', t')
  {
    t' := match step
      case StopClock => t.(stop := s.now)
      case WriteTdf => t.(write := s.now)
      case StartClock => t.(start := s.now)
      case _ => t;
  }

  lemma ActInPass(cfg: Config, s0: System, s: System, act: Act, t: Instants) returns (t': Instants)
    requires Enabled(cfg, s, act) && VT.PhaseInv(s.agent) && InPass(s.agent.phase)
    requires ClockInPass(s0, s, t) && AgentInPass(s0.agent, s.agent)
    ensures ClockInPass(s0, Apply(cfg, s, act), t') && AgentInPass(s0.agent, Apply(cfg, s, act).agent)
  {
    t' := t;
    match act
    case Elapse(_) =>
    case Observe(_, _) =>
    case Agent(m) =>
      match m
      case Own(step) =>
        AgentStepInPass(s0.agent, s.agent, step);
        t' := ClockStepInPass(s0, s, step, t);
      case Spurious =>
      case Database(op) => OperationInPass(s.agent, op);
  }

  /** Without the mutex nobody can change the TDF in force, or notify. */
  lemma OperationInPass(a: VT.Agent, op: Operation)
    requires VT.Enabled(a, VT.Database(op)) && InPass(a.phase)
    ensures var a' := VT.Operated(a, op);
            a' == a.(table := a'.table, threshold := a'.threshold, held := a'.held)
            && a'.table.latest == a.table.latest
  {
    assert !op.Hear? && !op.Enforce?;
  }

  ghost predicate PassesThrough(b: seq<System>, i: nat, j: nat)
    requires i <= j < |b|
  {
    b[i].agent.phase.Awake? && forall m :: i <= m < j ==> InPass(b[m].agent.phase)
  }

  /** A step taken inside a pass. */
  ghost predicate StepsInPass(cfg: Config, s: System, s': System) {
    Next(cfg, s, s') && VT.PhaseInv(s.agent) && InPass(s.agent.phase)
  }

  ghost predicate StepsInPassAt(cfg: Config, b: seq<System>, k: nat)
    requires k + 1 < |b|
  {
    StepsInPass(cfg, b[k], b[k + 1])
  }

  ghost predicate HasPassed(s0: System, s: System, t: Instants) {
    ClockInPass(s0, s, t) && AgentInPass(s0.agent, s.agent)
  }

  lemma {:induction false} PassSoFar(cfg: Config, b: seq<System>, i: nat, j: nat) returns (t: Instants)
    requires i <= j < |b| && b[i].agent.phase.Awake? && 0.0 < b[i].agent.table.latest
    requires forall k :: i <= k < j ==> StepsInPassAt(cfg, b, k)
    ensures HasPassed(b[i], b[j], t)
  {
    if i == j {
      t := Instants(0, 0, 0);
      BeginPass(b[i], t);
    } else {
      t := PassSoFar(cfg, b, i, j - 1);
      assert StepsInPassAt(cfg, b, j - 1);
      t := NextInPass(cfg, b[i], b[j - 1], b[j], t);
    }
  }

  lemma BeginPass(s: System, t: Instants)
    requires s.agent.phase.Awake? && 0.0 < s.agent.table.latest
    ensures HasPassed(s, s, t)
  {
  }

  lemma AgentReached(cfg: Config, initial: int, b: seq<System>, k: nat)
    requires Limits(cfg) && Behaviour(cfg, initial, b) && k < |b|
    ensures VT.PhaseInv(b[k].agent) && 0.0 < b[k].agent.table.latest
  {
    BehaviourKeepsInv(cfg, initial, b, k);
  }

  lemma NextInPass(cfg: Config, s0: System, s: System, s': System, t: Instants) returns (t': Instants)
    requires StepsInPass(cfg, s, s') && HasPassed(s0, s, t)
    ensures HasPassed(s0, s', t')
  {
    var act :| Enabled(cfg, s, act) && s' == Apply(cfg, s, act);
    t' := ActInPass(cfg, s0, s, act, t);
  }

  /** However the steps of a pass are interleaved with other threads, and with time, the pass has the
      effect on the clock, the TDF, the links and the gate that one uninterrupted pass has: that of
      Applier.VirtualTime.Pass at three instants of the interval. */
  lemma PassIsAtomic(cfg: Config, initial: int, b: seq<System>, i: nat, j: nat) returns (t: Instants)
    requires Limits(cfg) && Behaviour(cfg, initial, b) && i <= j < |b|
    requires PassesThrough(b, i, j) && b[j].agent.phase.LoopTop?
    ensures b[i].now <= t.stop <= t.write <= t.start <= b[j].now && 0.0 < b[i].agent.table.latest
    ensures var tdf := b[i].agent.table.latest;
            && b[j].clock == AfterPass(b[i].clock, t.stop, t.write, t.start, tdf)
            && b[j].events == b[i].events + PassEvents(t.stop, t.write, t.start, tdf)
            && b[j].agent.table.latest == b[j].agent.shared == b[j].agent.linkTdf == tdf
    ensures Reading(b[j].clock, t.start) == Reading(b[i].clock, t.stop)
    ensures b[j].agent.gateOpen == (b[i].agent.gateOpen || b[i].agent.suspensions)
  {
    AgentReached(cfg, initial, b, i);
    forall k | i <= k < j
      ensures StepsInPassAt(cfg, b, k)
    {
      AgentReached(cfg, initial, b, k);
      assert Next(cfg, b[k], b[k + 1]);
    }
    t := PassSoFar(cfg, b, i, j);
    PassDoesNotShow(b[i].clock, t.stop, t.write, t.start, b[i].agent.table.latest);
  }

  // ---- From a broadcast to the clock ----

  /** States that follow one another. */
  ghost predicate Continues(cfg: Config, c: seq<System>) {
    c != [] && forall k :: 0 <= k < |c| - 1 ==> Next(cfg, c[k], c[k + 1])
  }

  lemma ContinueWith(cfg: Config, c: seq<System>, act: Act)
    requires Continues(cfg, c) && Enabled(cfg, c[|c| - 1], act)
    ensures Continues(cfg, c + [Apply(cfg, c[|c| - 1], act)])
  {
    var s' := Apply(cfg, c[|c| - 1], act);
    assert Next(cfg, c[|c| - 1], s');
  }

  /** Whatever the applier can do by itself it can do in the whole system. */
  lemma {:induction false} ApplierDrives(cfg: Config, initial: int, c: seq<System>, s: System, ms: seq<VT.Move>)
    returns (d: seq<System>)
    requires Limits(cfg) && Continues(cfg, c) && c[|c| - 1] == s && Inv(cfg, initial, s)
    requires VT.Executes(s.agent, ms) && forall i :: 0 <= i < |ms| ==> ms[i].Own?
    ensures Continues(cfg, d) && c <= d && Inv(cfg, initial, d[|d| - 1])
    ensures d[|d| - 1].agent == VT.AfterMoves(s.agent, ms)
  {
    d := c;
    if ms != [] {
      var n := |ms| - 1;
      d := ApplierDrives(cfg, initial, c, s, ms[..n]);
      var last := d[|d| - 1];
      ActKeepsInv(cfg, initial, last, Agent(ms[n]));
      ContinueWith(cfg, d, Agent(ms[n]));
      d := d + [Apply(cfg, last, Agent(ms[n]))];
    }
  }

  lemma HearingWakes(a: VT.Agent, u: Update)
    requires a.phase.InWait? && Adopts(a.table, u, a.threshold)
    ensures VT.Enabled(a, VT.Database(Hear(u)))
    ensures var a' := VT.Apply(a, VT.Database(Hear(u)));
            a'.phase.Notified? && a'.table.latest == MaxOf(Recorded(a.table, u))
  {
  }

  lemma NotifiedRunsOn(a: VT.Agent) returns (ms: seq<VT.Move>)
    requires VT.Inv(a) && a.phase.Notified?
    ensures VT.Executes(a, ms) && forall i :: 0 <= i < |ms| ==> ms[i].Own?
    ensures VT.WaitsCurrent(VT.AfterMoves(a, ms)) && VT.AfterMoves(a, ms).table == a.table
  {
    ms := VT.RunsTo(a, [], 0);
    VT.MovesKeepInv(a, ms);
  }

  /** End to end: from any reachable state in which the applier waits, what a monitor broadcasts after its
      next iteration, if the table adopts it, can reach the clock: after it is heard, ten steps of the
      applier alone leave the clock running with the new maximum as its TDF. */
  lemma BroadcastReachesClock(cfg: Config, initial: int, b: seq<System>, k: nat, host: string, sample: Sample)
    returns (c: seq<System>)
    requires Limits(cfg) && Behaviour(cfg, initial, b) && k < |b| && b[k].agent.phase.InWait?
    requires cfg.isLoadMonitored && host in b[k].monitors && Runs(cfg, b[k].monitors[host], sample)
    requires var u := Update(host, Required(cfg, Watched(cfg, b[k].monitors[host], sample)));
             Adopts(b[k].agent.table, u, b[k].agent.threshold)
    ensures Continues(cfg, c) && c[0] == b[k]
    ensures var u := Update(host, Required(cfg, Watched(cfg, b[k].monitors[host], sample)));
            var s := c[|c| - 1];
            VT.WaitsCurrent(s.agent) && s.clock.enabled && s.clock.tdf == MaxOf(Recorded(b[k].agent.table, u))
  {
    var s, u := b[k], Update(host, Required(cfg, Watched(cfg, b[k].monitors[host], sample)));
    BehaviourKeepsInv(cfg, initial, b, k);
    c := [s];
    ContinueWith(cfg, c, Observe(host, sample));
    ActKeepsInv(cfg, initial, s, Observe(host, sample));
    var heard := Agent(VT.Database(Hear(u)));
    var s1 := Apply(cfg, s, Observe(host, sample));
    c := c + [s1];
    HearingWakes(s1.agent, u);
    ContinueWith(cfg, c, heard);
    ActKeepsInv(cfg, initial, s1, heard);
    var s2 := Apply(cfg, s1, heard);
    var ms := NotifiedRunsOn(s2.agent);
    c := ApplierDrives(cfg, initial, c + [s2], s2, ms);
  }
}
