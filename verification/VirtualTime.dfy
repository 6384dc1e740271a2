/** The thread of VirtualTime.cpp that waits for a new TDF and applies it, interleaved with the
    threads that change the TDF table. TdfTable::set and enforceTdf hold the table's mutex for their
    whole duration, so they are single steps; the applier holds it from its lock to the end of the
    iteration, except inside the wait. */
module VirtualTime {
  import opened TdfTables

  datatype Phase =
    | Starting       // before start()
    | LoopTop        // between two iterations
    | Locked         // holds the mutex, before the wait
    | InWait         // blocked in cond.wait
    | Notified       // a wakeup is pending, the mutex not yet reacquired
    | Awake          // holds the mutex again
    | Stopped        // after cpu_disable_ticks
    | GateClosed     // after the semaphore was set to SEMSTOP
    | HasTdf         // after getLatestTdf
    | TdfWritten     // after setTdf
    | LinksUpdated   // after updateInterfaceAttribute
    | Resumed        // after cpu_enable_ticks
    | Exited

  datatype Agent = Agent(
    table: Table,
    threshold: real,
    phase: Phase,
    shared: real,          // the TDF in shared memory
    newTdf: real,          // the applier's local
    linkTdf: real,         // the TDF the last pass configured the links with
    ticking: bool,
    suspensions: bool,     // isVMSuspensionsEnabled
    gateOpen: bool,
    missed: bool,          // a notify arrived outside the wait since the last completed pass
    held: set<real>)       // every value latestTdf_ has held

  /** The steps of the applier itself. */
  datatype Step =
    | Start | Exit | Lock | Wait | Wake | StopClock | CloseGate | ReadLatest | WriteTdf | UpdateLinks
    | StartClock | FinishPass

  datatype Move =
    | Own(step: Step)
    | Database(op: Operation)
    | Spurious   // a wakeup without a new TDF, as at shutdown

  ghost predicate Init(a: Agent) {
    && a.table == EMPTY && a.phase == Starting && a.shared == 1.0
    && !a.ticking && !a.missed && a.held == {1.0}
  }

  predicate MutexFree(p: Phase) {
    p.Starting? || p.LoopTop? || p.InWait? || p.Notified? || p.Exited?
  }

  predicate Enabled(a: Agent, m: Move) {
    match m
    case Own(step) => a.phase == Precondition(step)
    case Database(op) => op.Hear? || op.Enforce? ==> MutexFree(a.phase)
    case Spurious => true
  }

  /** Where the applier is before a step. */
  function Precondition(step: Step): Phase {
    match step
    case Start => Starting
    case Exit => LoopTop
    case Lock => LoopTop
    case Wait => Locked
    case Wake => Notified
    case StopClock => Awake
    case CloseGate => Stopped
    case ReadLatest => GateClosed
    case WriteTdf => HasTdf
    case UpdateLinks => TdfWritten
    case StartClock => LinksUpdated
    case FinishPass => Resumed
  }

  /** notify_all wakes the applier only if it is waiting. */
  function NotifyAll(a: Agent): Agent {
    match a.phase
    case InWait => a.(phase := Notified)
    case Notified => a
    case _ => a.(missed := true)
  }

  /** A new table, with or without a notify; its TDF joins those that have been in force. */
  function WithTable(a: Agent, t: Table, notify: bool): Agent {
    var a' := a.(table := t, held := a.held + {t.latest});
    if notify then NotifyAll(a') else a'
  }

  function OwnStep(a: Agent, step: Step): Agent {
    match step
    case Start => a.(phase := LoopTop, ticking := true, gateOpen := true)
    case Exit => a.(phase := Exited)
    case Lock => a.(phase := Locked)
    case Wait => a.(phase := InWait)
    case Wake => a.(phase := Awake)
    case StopClock => a.(phase := Stopped, ticking := false)
    case CloseGate => a.(phase := GateClosed, gateOpen := a.gateOpen && !a.suspensions)
    case ReadLatest => a.(phase := HasTdf, newTdf := a.table.latest)
    case WriteTdf => a.(phase := TdfWritten, shared := a.newTdf)
    case UpdateLinks => a.(phase := LinksUpdated, linkTdf := a.table.latest)
    case StartClock => a.(phase := Resumed, ticking := true)
    case FinishPass => a.(phase := LoopTop, gateOpen := a.gateOpen || a.suspensions, missed := false)
  }

  ghost function Operated(a: Agent, op: Operation): Agent {
    WithTable(a, TableAfter(a.table, op, a.threshold), Notifies(a.table, op, a.threshold))
      .(threshold := if op.SetThreshold? then op.c else a.threshold)
  }

  ghost function Apply(a: Agent, m: Move): Agent {
    match m
    case Own(step) => OwnStep(a, step)
    case Database(op) => Operated(a, op)
    case Spurious => if a.phase.InWait? then a.(phase := Notified) else a
  }

  ghost predicate Next(a: Agent, a': Agent) {
    exists m :: Enabled(a, m) && a' == Apply(a, m)
  }

  ghost predicate Behaviour(b: seq<Agent>) {
    && b != [] && Init(b[0])
    && forall k :: 0 <= k < |b| - 1 ==> Next(b[k], b[k + 1])
  }

  /** Shared memory holds the TDF in force, unless a notify was missed. */
  predicate Current(a: Agent) {
    a.missed || a.shared == a.table.latest
  }

  /** The hosts are stopped exactly if suspensions are enabled. */
  predicate HostsStopped(a: Agent) {
    a.gateOpen == !a.suspensions
  }

  predicate PhaseInv(a: Agent) {
    match a.phase
    case Starting => !a.ticking && Current(a)
    case LoopTop | Locked | InWait | Exited => a.ticking && a.gateOpen && Current(a)
    case Notified | Awake => a.ticking && a.gateOpen
    case Stopped => !a.ticking && a.gateOpen
    case GateClosed => !a.ticking && HostsStopped(a)
    case HasTdf => !a.ticking && HostsStopped(a) && a.newTdf == a.table.latest
    case TdfWritten => !a.ticking && HostsStopped(a) && a.newTdf == a.shared == a.table.latest
    case LinksUpdated =>
      !a.ticking && HostsStopped(a) && a.newTdf == a.shared == a.linkTdf == a.table.latest
    case Resumed => a.ticking && HostsStopped(a) && a.newTdf == a.shared == a.linkTdf == a.table.latest
  }

  ghost predicate Inv(a: Agent) {
    && 1.0 in a.held && a.table.latest in a.held && a.shared in a.held
    && PhaseInv(a)
  }

  /** A change of the table keeps the invariant if a new TDF comes with a notify, under the mutex. */
  lemma TableChangeKeepsInv(a: Agent, t: Table, notify: bool)
    requires Inv(a)
    requires notify ==> MutexFree(a.phase)
    requires notify || t.latest == a.table.latest
    ensures Inv(WithTable(a, t, notify))
  {
  }

  lemma OwnStepKeepsInv(a: Agent, step: Step)
    requires Inv(a) && a.phase == Precondition(step)
    ensures Inv(OwnStep(a, step))
    ensures OwnStep(a, step).held == a.held
  {
    match step
    case Start =>
    case Exit =>
    case Lock =>
    case Wait =>
    case Wake =>
    case StopClock =>
    case CloseGate =>
    case ReadLatest =>
    case WriteTdf =>
    case UpdateLinks =>
    case StartClock =>
    case FinishPass =>
  }

  lemma MoveKeepsInv(a: Agent, m: Move)
    requires Inv(a) && Enabled(a, m)
    ensures Inv(Apply(a, m))
  {
    match m
    case Own(step) => OwnStepKeepsInv(a, step);
    case Spurious =>
    case Database(op) =>
      LatestChangesWithNotify(a.table, op, a.threshold);
      TableChangeKeepsInv(a, TableAfter(a.table, op, a.threshold), Notifies(a.table, op, a.threshold));
  }

  lemma {:induction false} BehaviourKeepsInv(b: seq<Agent>, k: nat)
    requires Behaviour(b) && k < |b|
    ensures Inv(b[k])
  {
    if k > 0 {
      BehaviourKeepsInv(b, k - 1);
      assert Next(b[k - 1], b[(k - 1) + 1]);
      var m :| Enabled(b[k - 1], m) && b[k] == Apply(b[k - 1], m);
      MoveKeepsInv(b[k - 1], m);
    }
  }

  /** Outside a pass the clock runs and so do the hosts; the clock is stopped exactly from the beginning of
      the pass to its end, and so are the hosts meanwhile if suspensions are enabled. */
  lemma HostsRunWithClock(b: seq<Agent>, k: nat)
    requires Behaviour(b) && k < |b| && !b[k].phase.Starting?
    ensures b[k].ticking <==> b[k].phase.Resumed? || Distance(b[k].phase) <= 2 || 9 <= Distance(b[k].phase)
    ensures !b[k].gateOpen <==> b[k].suspensions && 3 <= Distance(b[k].phase) <= 7
  {
    BehaviourKeepsInv(b, k);
  }

  /** Over all interleavings: when the applier waits with no wakeup pending, shared memory holds the
      TDF in force, unless a notify was missed since the last completed pass. */
  lemma WaitingIsCurrent(b: seq<Agent>, k: nat)
    requires Behaviour(b) && k < |b| && b[k].phase.InWait? && !b[k].missed
    ensures b[k].shared == b[k].table.latest
  {
    BehaviourKeepsInv(b, k);
  }

  /** The TDF in shared memory is 1.0 or one that the table has had in force before. */
  lemma SharedWasInForce(b: seq<Agent>, k: nat)
    requires Behaviour(b) && k < |b|
    ensures b[k].shared == 1.0 || exists j :: 0 <= j <= k && b[k].shared == b[j].table.latest
  {
    BehaviourKeepsInv(b, k);
    HeldWasInForce(b, k, b[k].shared);
  }

  lemma {:induction false} HeldWasInForce(b: seq<Agent>, k: nat, v: real)
    requires Behaviour(b) && k < |b| && v in b[k].held
    ensures v == 1.0 || exists j :: 0 <= j <= k && v == b[j].table.latest
  {
    if k > 0 {
      assert Next(b[k - 1], b[(k - 1) + 1]);
      BehaviourKeepsInv(b, k - 1);
      NextHolds(b[k - 1], b[k]);
      if v in b[k - 1].held {
        HeldWasInForce(b, k - 1, v);
      } else {
        assert v == b[k].table.latest;
      }
    }
  }

  lemma NextHolds(a: Agent, a': Agent)
    requires Inv(a) && Next(a, a')
    ensures forall v :: v in a'.held ==> v in a.held || v == a'.table.latest
  {
    var m :| Enabled(a, m) && a' == Apply(a, m);
    HeldGrowsByLatest(a, m);
  }

  lemma HeldGrowsByLatest(a: Agent, m: Move)
    requires Inv(a) && Enabled(a, m)
    ensures forall v :: v in Apply(a, m).held ==> v in a.held || v == Apply(a, m).table.latest
  {
    match m
    case Own(step) => OwnStepKeepsInv(a, step);
    case Spurious =>
    case Database(op) =>
  }

  /** Every pass, whatever triggered it, writes the TDF only while the clock is frozen and, with
      suspensions enabled, the hosts are stopped; and it ends with shared memory and the links at
      the TDF in force. */
  lemma PassAppliesLatest(b: seq<Agent>, k: nat)
    requires Behaviour(b) && k < |b|
    ensures Enabled(b[k], Own(WriteTdf)) ==> !b[k].ticking && b[k].gateOpen == !b[k].suspensions
    ensures Enabled(b[k], Own(FinishPass)) ==>
              var a := Apply(b[k], Own(FinishPass));
              a.ticking && a.gateOpen && a.shared == a.table.latest && a.linkTdf == a.table.latest
  {
    BehaviourKeepsInv(b, k);
  }

  // ---- Which notifies are lost ----

  ghost predicate Notifying(a: Agent, m: Move) {
    m.Database? && Notifies(a.table, m.op, a.threshold)
  }

  ghost predicate NextNotifiedIn(a: Agent, a': Agent, phases: set<Phase>) {
    exists m :: Enabled(a, m) && a' == Apply(a, m) && (Notifying(a, m) ==> a.phase in phases)
  }

  /** A behaviour in which every notify arrives while the applier is in one of these phases. */
  ghost predicate NotifiedIn(b: seq<Agent>, phases: set<Phase>) {
    Behaviour(b) && forall k :: 0 <= k < |b| - 1 ==> NextNotifiedIn(b[k], b[k + 1], phases)
  }

  /** Whenever the applier waits with no wakeup pending, shared memory holds the TDF in force. */
  ghost predicate NoneLostIn(phases: set<Phase>) {
    forall b: seq<Agent>, k: nat :: NotifiedIn(b, phases) && k < |b| && b[k].phase.InWait? ==>
      b[k].shared == b[k].table.latest
  }

  /** The notifies that can be lost are exactly those that arrive before the loop starts or between
      two iterations. */
  lemma LostBeforeLockExactly(phases: set<Phase>)
    ensures NoneLostIn(phases) <==> Starting !in phases && LoopTop !in phases
  {
    if Starting !in phases && LoopTop !in phases {
      forall b: seq<Agent>, k: nat | NotifiedIn(b, phases) && k < |b| && b[k].phase.InWait?
        ensures b[k].shared == b[k].table.latest
      {
        MissedOnlyAfterExit(b, phases, k);
        WaitingIsCurrent(b, k);
      }
    } else {
      var b := WakeupCanBeMissed(if Starting in phases then Starting else LoopTop);
      forall k | 0 <= k < |b| - 1
        ensures NextNotifiedIn(b[k], b[k + 1], phases)
      {
        var m :| Enabled(b[k], m) && b[k + 1] == Apply(b[k], m) &&
          (Notifying(b[k], m) ==> b[k].phase in {if Starting in phases then Starting else LoopTop});
      }
      assert b[|b| - 1].phase.InWait?;
    }
  }

  lemma {:induction false} MissedOnlyAfterExit(b: seq<Agent>, phases: set<Phase>, k: nat)
    requires NotifiedIn(b, phases) && k < |b| && Starting !in phases && LoopTop !in phases
    ensures b[k].missed ==> b[k].phase.Exited?
  {
    if k > 0 {
      MissedOnlyAfterExit(b, phases, k - 1);
      assert NextNotifiedIn(b[k - 1], b[(k - 1) + 1], phases);
      StepMissesAfterExit(b[k - 1], b[k], phases);
    }
  }

  lemma StepMissesAfterExit(a: Agent, a': Agent, phases: set<Phase>)
    requires NextNotifiedIn(a, a', phases) && Starting !in phases && LoopTop !in phases
    requires a.missed ==> a.phase.Exited?
    ensures a'.missed ==> a'.phase.Exited?
  {
    var m :| Enabled(a, m) && a' == Apply(a, m) && (Notifying(a, m) ==> a.phase in phases);
    match m
    case Own(step) => OwnStepMissesNothing(a, step);
    case Spurious =>
    case Database(op) =>
      OperationMisses(a, TableAfter(a.table, op, a.threshold), Notifies(a.table, op, a.threshold));
  }

  lemma OperationMisses(a: Agent, t: Table, notify: bool)
    requires notify ==> MutexFree(a.phase) && !a.phase.Starting? && !a.phase.LoopTop?
    requires a.missed ==> a.phase.Exited?
    ensures WithTable(a, t, notify).missed ==> WithTable(a, t, notify).phase.Exited?
  {
  }

  lemma OwnStepMissesNothing(a: Agent, step: Step)
    requires a.phase == Precondition(step)
    ensures a.phase != Exited && (OwnStep(a, step).missed ==> a.missed)
  {
  }

  /** A TDF enforced before the loop starts, or between two iterations, wakes nobody, and the
      applier goes to wait with the old one in shared memory. */
  lemma WakeupCanBeMissed(phase: Phase) returns (b: seq<Agent>)
    requires phase == Starting || phase == LoopTop
    ensures NotifiedIn(b, {phase})
    ensures b[|b| - 1].phase.InWait? && b[|b| - 1].missed
    ensures b[|b| - 1].shared == 1.0 && b[|b| - 1].table.latest == 2.0
  {
    var a0, a1, a2 := NotifiedEarly(phase);
    var a3, a4 := a2.(phase := Locked), a2.(phase := InWait);
    NotifiedStep(a2, Own(Lock), phase, a3);
    NotifiedStep(a3, Own(Wait), phase, a4);
    FiveStates(a0, a1, a2, a3, a4, {phase});
    b := [a0, a1, a2, a3, a4];
  }

  lemma NotifiedEarly(phase: Phase) returns (a0: Agent, a1: Agent, a2: Agent)
    requires phase == Starting || phase == LoopTop
    ensures Init(a0) && a2.phase.LoopTop? && a2.missed && a2.shared == 1.0 && a2.table.latest == 2.0
    ensures Next(a0, a1) && NextNotifiedIn(a0, a1, {phase})
    ensures Next(a1, a2) && NextNotifiedIn(a1, a2, {phase})
  {
    a0 := Agent(EMPTY, 0.1, Starting, 1.0, 1.0, 1.0, false, true, true, false, {1.0});
    var enforce, t := Database(Enforce(2.0)), Table(map[], false, 2.0);
    if phase == Starting {
      a1 := WithTable(a0, t, true);
      a2 := OwnStep(a1, Start);
      NotifiedStep(a0, enforce, phase, a1);
      NotifiedStep(a1, Own(Start), phase, a2);
    } else {
      a1 := OwnStep(a0, Start);
      a2 := WithTable(a1, t, true);
      NotifiedStep(a0, Own(Start), phase, a1);
      NotifiedStep(a1, enforce, phase, a2);
    }
  }

  lemma FiveStates(a0: Agent, a1: Agent, a2: Agent, a3: Agent, a4: Agent, phases: set<Phase>)
    requires Init(a0)
    requires Next(a0, a1) && Next(a1, a2) && Next(a2, a3) && Next(a3, a4)
    requires NextNotifiedIn(a0, a1, phases) && NextNotifiedIn(a1, a2, phases)
    requires NextNotifiedIn(a2, a3, phases) && NextNotifiedIn(a3, a4, phases)
    ensures NotifiedIn([a0, a1, a2, a3, a4], phases)
  {
  }

  lemma NotifiedStep(a: Agent, m: Move, phase: Phase, a': Agent)
    requires Enabled(a, m) && (Notifying(a, m) ==> a.phase == phase) && a' == Apply(a, m)
    ensures Next(a, a') && NextNotifiedIn(a, a', {phase})
  {
    assert a.phase == phase ==> a.phase in {phase};
  }

  // ---- Progress ----

  /** The agent after some moves. */
  ghost function AfterMoves(a: Agent, ms: seq<Move>): Agent {
    if ms == [] then a else Apply(AfterMoves(a, ms[..|ms| - 1]), ms[|ms| - 1])
  }

  ghost predicate Executes(a: Agent, ms: seq<Move>) {
    ms != [] ==> Executes(a, ms[..|ms| - 1]) && Enabled(AfterMoves(a, ms[..|ms| - 1]), ms[|ms| - 1])
  }

  lemma {:induction false} MovesKeepInv(a: Agent, ms: seq<Move>)
    requires Inv(a) && Executes(a, ms)
    ensures Inv(AfterMoves(a, ms))
  {
    if ms != [] {
      MovesKeepInv(a, ms[..|ms| - 1]);
      MoveKeepsInv(AfterMoves(a, ms[..|ms| - 1]), ms[|ms| - 1]);
    }
  }

  lemma OneMoreMove(a: Agent, ms: seq<Move>, m: Move)
    requires Executes(a, ms) && Enabled(AfterMoves(a, ms), m)
    ensures Executes(a, ms + [m]) && AfterMoves(a, ms + [m]) == Apply(AfterMoves(a, ms), m)
  {
    assert (ms + [m])[..|ms|] == ms;
  }

  /** The applier's own steps until it waits. */
  function Distance(p: Phase): nat {
    match p
    case InWait => 0
    case Locked => 1
    case LoopTop => 2
    case Resumed => 3
    case LinksUpdated => 4
    case TdfWritten => 5
    case HasTdf => 6
    case GateClosed => 7
    case Stopped => 8
    case Awake => 9
    case Notified => 10
    case Starting => 3
    case Exited => 0
  }

  /** The applier is never stuck: unless it waits or has ended, it can take a step, and one that brings
      it nearer to the wait. */
  lemma NeverStuck(a: Agent) returns (step: Step)
    requires !a.phase.InWait? && !a.phase.Exited?
    ensures Enabled(a, Own(step)) && Distance(OwnStep(a, step).phase) == Distance(a.phase) - 1
    ensures !OwnStep(a, step).phase.Exited?
  {
    step := match a.phase
      case Starting => Start
      case LoopTop => Lock
      case Locked => Wait
      case Notified => Wake
      case Awake => StopClock
      case Stopped => CloseGate
      case GateClosed => ReadLatest
      case HasTdf => WriteTdf
      case TdfWritten => UpdateLinks
      case LinksUpdated => StartClock
      case Resumed => FinishPass
      case InWait | Exited => Start;
  }

  /** A pass has begun, or nothing has been missed since the last one. */
  predicate Applies(a: Agent) {
    match a.phase
    case LoopTop | Locked | InWait => !a.missed && a.linkTdf == a.table.latest
    case Starting | Exited => false
    case _ => true
  }

  lemma StepApplies(a: Agent, step: Step)
    requires Inv(a) && Applies(a) && a.phase == Precondition(step) && !OwnStep(a, step).phase.Exited?
    ensures Applies(OwnStep(a, step))
  {
  }

  /** Own steps alone lead to the wait, by way of every distance from it. */
  lemma RunsTo(a: Agent, ms: seq<Move>, distance: nat) returns (all: seq<Move>)
    requires Inv(a) && Executes(a, ms) && Applies(AfterMoves(a, ms)) && distance <= Distance(AfterMoves(a, ms).phase)
    ensures ms <= all && |all| + distance == |ms| + Distance(AfterMoves(a, ms).phase)
    ensures forall i :: |ms| <= i < |all| ==> all[i].Own?
    ensures Executes(a, all) && Distance(AfterMoves(a, all).phase) == distance && Applies(AfterMoves(a, all))
    ensures AfterMoves(a, all).table == AfterMoves(a, ms).table
    decreases Distance(AfterMoves(a, ms).phase)
  {
    var now := AfterMoves(a, ms);
    all := ms;
    if distance < Distance(now.phase) {
      var step := NextOwnStep(a, ms);
      all := RunsTo(a, ms + [Own(step)], distance);
    }
  }

  lemma NextOwnStep(a: Agent, ms: seq<Move>) returns (step: Step)
    requires Inv(a) && Executes(a, ms) && Applies(AfterMoves(a, ms)) && 0 < Distance(AfterMoves(a, ms).phase)
    ensures Executes(a, ms + [Own(step)]) && Applies(AfterMoves(a, ms + [Own(step)]))
    ensures Distance(AfterMoves(a, ms + [Own(step)]).phase) == Distance(AfterMoves(a, ms).phase) - 1
    ensures AfterMoves(a, ms + [Own(step)]).table == AfterMoves(a, ms).table
  {
    var now := AfterMoves(a, ms);
    step := NeverStuck(now);
    OneMoreMove(a, ms, Own(step));
    MovesKeepInv(a, ms);
    StepApplies(now, step);
    OwnStepKeepsTable(now, step);
  }

  lemma OwnStepKeepsTable(a: Agent, step: Step)
    ensures OwnStep(a, step).table == a.table && OwnStep(a, step).suspensions == a.suspensions
  {
  }

  /** The applier waits, and everything is as the TDF in force demands. */
  predicate WaitsCurrent(a: Agent) {
    && a.phase.InWait? && a.shared == a.linkTdf == a.table.latest
    && a.ticking && a.gateOpen && !a.missed
  }

  /** From any reachable state in which a wakeup is pending, ten steps of the applier alone lead through
      a whole pass to a wait with the TDF in force applied. */
  lemma WakeupLeadsToWait(b: seq<Agent>, k: nat) returns (ms: seq<Move>)
    requires Behaviour(b) && k < |b| && b[k].phase.Notified?
    ensures |ms| == 10 && (forall i :: 0 <= i < |ms| ==> ms[i].Own?) && Executes(b[k], ms)
    ensures WaitsCurrent(AfterMoves(b[k], ms)) && AfterMoves(b[k], ms).table == b[k].table
  {
    BehaviourKeepsInv(b, k);
    ms := RunsTo(b[k], [], 0);
    MovesKeepInv(b[k], ms);
  }

  /** So however many TDFs are enforced while the applier waits, the last one can be, and by its own
      steps alone is, applied. */
  lemma {:induction false} EnforcedIsApplied(b: seq<Agent>, k: nat, tdfs: seq<real>) returns (ms: seq<Move>)
    requires Behaviour(b) && k < |b| && b[k].phase.InWait? && tdfs != []
    ensures |ms| == |tdfs| + 10 && (forall i :: |tdfs| <= i < |ms| ==> ms[i].Own?)
    ensures forall i :: 0 <= i < |tdfs| ==> ms[i] == Database(Enforce(tdfs[i]))
    ensures Executes(b[k], ms)
    ensures WaitsCurrent(AfterMoves(b[k], ms)) && AfterMoves(b[k], ms).shared == tdfs[|tdfs| - 1]
  {
    BehaviourKeepsInv(b, k);
    var enforcing := EnforcedInTurn(b[k], tdfs);
    ms := RunsTo(b[k], enforcing, 0);
    MovesKeepInv(b[k], ms);
  }

  lemma {:induction false} EnforcedInTurn(a: Agent, tdfs: seq<real>) returns (ms: seq<Move>)
    requires a.phase.InWait? && tdfs != []
    ensures |ms| == |tdfs| && forall i :: 0 <= i < |tdfs| ==> ms[i] == Database(Enforce(tdfs[i]))
    ensures Executes(a, ms)
    ensures AfterMoves(a, ms).phase.Notified? && AfterMoves(a, ms).table.latest == tdfs[|tdfs| - 1]
  {
    var n := |tdfs| - 1;
    ms := [];
    if n > 0 {
      ms := EnforcedInTurn(a, tdfs[..n]);
    }
    OneMoreEnforced(a, ms, tdfs[n]);
    ms := ms + [Database(Enforce(tdfs[n]))];
  }

  lemma OneMoreEnforced(a: Agent, ms: seq<Move>, tdf: real)
    requires Executes(a, ms) && (AfterMoves(a, ms).phase.InWait? || AfterMoves(a, ms).phase.Notified?)
    ensures var all := ms + [Database(Enforce(tdf))];
            Executes(a, all) && AfterMoves(a, all).phase.Notified? && AfterMoves(a, all).table.latest == tdf
  {
    EnforceNotifies(AfterMoves(a, ms), tdf);
    OneMoreMove(a, ms, Database(Enforce(tdf)));
  }

  lemma EnforceNotifies(a: Agent, tdf: real)
    requires a.phase.InWait? || a.phase.Notified?
    ensures Enabled(a, Database(Enforce(tdf)))
    ensures Operated(a, Enforce(tdf)).phase.Notified? && Operated(a, Enforce(tdf)).table.latest == tdf
  {
  }

  /** A wakeup without a new TDF, as the one at shutdown, gets a waiting applier to its end, by way of a
      last pass. */
  lemma ShutdownGetsThrough(b: seq<Agent>, k: nat) returns (ms: seq<Move>)
    requires Behaviour(b) && k < |b| && b[k].phase.InWait?
    ensures |ms| == 10 && ms[0] == Spurious && (forall i :: 1 <= i < |ms| ==> ms[i].Own?)
    ensures Executes(b[k], ms) && AfterMoves(b[k], ms).phase.Exited?
    ensures AfterMoves(b[k], ms).shared == b[k].table.latest
    ensures AfterMoves(b[k], ms).ticking && AfterMoves(b[k], ms).gateOpen
  {
    BehaviourKeepsInv(b, k);
    FirstMove(b[k], Spurious);
    ms := RunsTo(b[k], [Spurious], 2);
    MovesKeepInv(b[k], ms);
    OneMoreMove(b[k], ms, Own(Exit));
    ms := ms + [Own(Exit)];
  }

  lemma FirstMove(a: Agent, m: Move)
    requires Enabled(a, m)
    ensures Executes(a, [m]) && AfterMoves(a, [m]) == Apply(a, m)
  {
    assert [] + [m] == [m];
    OneMoreMove(a, [], m);
  }

  // ---- Progress whatever the others do ----

  function OwnSteps(ms: seq<Move>): nat {
    if ms == [] then 0 else OwnSteps(ms[..|ms| - 1]) + if ms[|ms| - 1].Own? then 1 else 0
  }

  lemma OthersKeepPhase(a: Agent, m: Move)
    requires Enabled(a, m) && !m.Own? && !a.phase.InWait?
    ensures Apply(a, m).phase == a.phase
  {
  }

  lemma OwnStepComesNearer(a: Agent, step: Step)
    requires a.phase == Precondition(step) && 3 <= Distance(a.phase) && !a.phase.Starting?
    ensures Distance(OwnStep(a, step).phase) == Distance(a.phase) - 1
    ensures !OwnStep(a, step).phase.Starting?
  {
  }

  lemma {:induction false} PassAdvances(a: Agent, ms: seq<Move>)
    requires a.phase.Notified? && Executes(a, ms) && OwnSteps(ms) <= 8
    ensures Distance(AfterMoves(a, ms).phase) == 10 - OwnSteps(ms) && !AfterMoves(a, ms).phase.Starting?
  {
    if ms != [] {
      var before, m := ms[..|ms| - 1], ms[|ms| - 1];
      PassAdvances(a, before);
      if m.Own? {
        OwnStepComesNearer(AfterMoves(a, before), m.step);
      } else {
        OthersKeepPhase(AfterMoves(a, before), m);
      }
    }
  }

  /** In any interleaving from a reachable state in which a wakeup is pending, the eighth step of the
      applier completes a pass, with the TDF applied that is in force at that time. */
  lemma EighthStepApplies(b: seq<Agent>, k: nat, ms: seq<Move>)
    requires Behaviour(b) && k < |b| && b[k].phase.Notified? && Executes(b[k], ms)
    requires OwnSteps(ms) == 8 && ms[|ms| - 1].Own?
    ensures var a := AfterMoves(b[k], ms);
            && a.phase.LoopTop? && a.shared == a.linkTdf == a.table.latest
            && a.ticking && a.gateOpen && !a.missed
  {
    var before, m := ms[..|ms| - 1], ms[|ms| - 1];
    BehaviourKeepsInv(b, k);
    MovesKeepInv(b[k], before);
    PassAdvances(b[k], before);
    LastStepOfPass(AfterMoves(b[k], before), m.step);
  }

  lemma LastStepOfPass(a: Agent, step: Step)
    requires Inv(a) && a.phase == Precondition(step) && Distance(a.phase) == 3 && !a.phase.Starting?
    ensures var a' := OwnStep(a, step);
            && a'.phase.LoopTop? && a'.shared == a'.linkTdf == a'.table.latest
            && a'.ticking && a'.gateOpen && !a'.missed
  {
  }
}
