/** The dilated virtual clock of shared/qemu-timer.c as a value, its runs, and the simple
    specification it refines: an initial value plus floor(length / tdf) for each enabled period. */
module VirtualClock {
  import opened Arith
  import opened Wrappers

  /** The clock part of the shared timers_state, with the shared TDF. */
  datatype ClockState = ClockState(enabled: bool, offset: int, restart: int, tdf: Tdf)

  /** What happens to the clock; `at` is the value get_clock() has at that instant. */
  datatype ClockEvent =
    | Enable(at: int)
    | Disable(at: int)
    | SetTdf(at: int, tdf: Tdf)
    | Read(at: int)

  /** timers_state_create: stopped, at whatever value the time source had then. */
  function Created(initial: int): ClockState {
    ClockState(false, initial, initial, 1.0)
  }

  /** The running clock before truncation. */
  function ExactReading(s: ClockState, now: int): real {
    s.restart as real + (now - s.restart) as real / s.tdf + s.offset as real
  }

  /** __cpu_get_clock */
  function Reading(s: ClockState, now: int): int {
    if s.enabled then Trunc(ExactReading(s, now)) else s.offset
  }

  function Step(s: ClockState, e: ClockEvent): ClockState {
    match e
    case Enable(at) =>
      if s.enabled then s else s.(enabled := true, offset := s.offset - at, restart := at)
    case Disable(at) =>
      if s.enabled then s.(enabled := false, offset := Reading(s, at)) else s
    case SetTdf(_, tdf) => s.(tdf := tdf)
    case Read(_) => s
  }

  /** The TDF is meant to change only while the clock is frozen. */
  predicate Permitted(s: ClockState, e: ClockEvent) {
    e.SetTdf? ==> !s.enabled
  }

  /** The state after the first `k` events. */
  function After(s: ClockState, es: seq<ClockEvent>, k: nat): ClockState
    requires k <= |es|
  {
    if k == 0 then s else Step(After(s, es, k - 1), es[k - 1])
  }

  function Run(s: ClockState, es: seq<ClockEvent>): ClockState {
    After(s, es, |es|)
  }

  /** The time source does not fall along the run (it starts at or after a running clock's
      restart point), and the TDF changes only while the clock is frozen. */
  ghost predicate WellFormed(s: ClockState, es: seq<ClockEvent>) {
    && (s.enabled && es != [] ==> s.restart <= es[0].at)
    && (forall i, j :: 0 <= i <= j < |es| ==> es[i].at <= es[j].at)
    && (forall k :: 0 <= k < |es| ==> PermittedAt(s, es, k))
  }

  predicate PermittedAt(s: ClockState, es: seq<ClockEvent>, k: nat)
    requires k < |es|
  {
    Permitted(After(s, es, k), es[k])
  }

  /** What a pass of the applier does to the clock, and when. */
  function PassEvents(stop: int, write: int, start: int, tdf: Tdf): seq<ClockEvent> {
    [Disable(stop), SetTdf(write, tdf), Enable(start)]
  }

  lemma PassAppended(es: seq<ClockEvent>, stop: int, write: int, start: int, tdf: Tdf)
    ensures es + [Disable(stop)] + [SetTdf(write, tdf)] + [Enable(start)] == es + PassEvents(stop, write, start, tdf)
  {
  }

  /** The clock after a pass. */
  function AfterPass(s: ClockState, stop: int, write: int, start: int, tdf: Tdf): ClockState {
    Step(Step(Step(s, Disable(stop)), SetTdf(write, tdf)), Enable(start))
  }

  // ---- One instant and one event ----

  /** No permitted event makes the clock jump: it shows the same value right before and right
      after it. In particular enabling resumes exactly at the frozen value. */
  lemma StepIsContinuous(s: ClockState, e: ClockEvent)
    requires Permitted(s, e)
    ensures Reading(Step(s, e), e.at) == Reading(s, e.at)
  {
    if e.Enable? && !s.enabled {
      var s' := Step(s, e);
      assert (e.at - s'.restart) as real / s'.tdf == 0.0;
      assert ExactReading(s', e.at) == s.offset as real;
    }
  }

  /** A pass does not show: the clock resumes at what it showed when it was stopped, and runs on at
      the rate of the new TDF. */
  lemma PassDoesNotShow(s: ClockState, stop: int, write: int, start: int, tdf: Tdf)
    ensures var s' := AfterPass(s, stop, write, start, tdf);
            s'.enabled && s'.tdf == tdf && s'.restart == start && Reading(s', start) == Reading(s, stop)
  {
    StepIsContinuous(s, Disable(stop));
    StepIsContinuous(Step(Step(s, Disable(stop)), SetTdf(write, tdf)), Enable(start));
  }

  /** Between events the clock does not go back, and with a TDF of at least one it advances by
      at most the real time that passes. */
  lemma ReadingBetween(s: ClockState, now: int, later: int)
    requires now <= later
    ensures Reading(s, now) <= Reading(s, later)
    ensures 1.0 <= s.tdf ==> Reading(s, later) - Reading(s, now) <= later - now
  {
    var d := (later - now) as real;
    assert ExactReading(s, later) == ExactReading(s, now) + d / s.tdf;
    assert d / s.tdf >= 0.0;
    TruncMonotone(ExactReading(s, now), ExactReading(s, later));
    if 1.0 <= s.tdf {
      QuotientShrinks(d, s.tdf);
      TruncShift(ExactReading(s, now), ExactReading(s, later), later - now);
    }
  }

  lemma StepThenWait(s: ClockState, e: ClockEvent, later: int)
    requires Permitted(s, e) && e.at <= later
    ensures Reading(s, e.at) <= Reading(Step(s, e), later)
    ensures 1.0 <= Step(s, e).tdf ==> Reading(Step(s, e), later) - Reading(s, e.at) <= later - e.at
  {
    StepIsContinuous(s, e);
    ReadingBetween(Step(s, e), e.at, later);
  }

  /** While the clock is enabled after showing a non-negative value, it advances at the rate
      1/tdf, up to less than one unit. */
  lemma SlopeWhileEnabled(s: ClockState, now: int, later: int)
    requires s.enabled && s.restart <= now <= later && 0 <= s.restart + s.offset
    ensures var progress := (Reading(s, later) - Reading(s, now)) as real;
            var exact := (later - now) as real / s.tdf;
            exact - 1.0 < progress < exact + 1.0
  {
    var d := (later - now) as real;
    assert ExactReading(s, later) == ExactReading(s, now) + d / s.tdf;
    assert (now - s.restart) as real / s.tdf >= 0.0;
    assert ExactReading(s, now) >= 0.0;
  }

  /** Why the TDF may change only while the clock is frozen: replacing `before` by `after` while it
      runs can never set the clock back, whatever it shows and however long it has been running,
      exactly when the TDF does not grow. */
  lemma LiveTdfChange(before: Tdf, after: Tdf)
    ensures (forall s: ClockState, now: int ::
               s.enabled && s.tdf == before && s.restart <= now ==>
               Reading(s, now) <= Reading(Step(s, SetTdf(now, after)), now))
            <==> after <= before
  {
    if after <= before {
      forall s: ClockState, now: int | s.enabled && s.tdf == before && s.restart <= now
        ensures Reading(s, now) <= Reading(Step(s, SetTdf(now, after)), now)
      {
        LiveChangeIsSafe(s, after, now);
      }
    } else {
      var s, now := LiveChangeWitness(before, after);
      assert !(Reading(s, now) <= Reading(Step(s, SetTdf(now, after)), now));
    }
  }

  lemma LiveChangeIsSafe(s: ClockState, after: Tdf, now: int)
    requires s.enabled && s.restart <= now && after <= s.tdf
    ensures Reading(s, now) <= Reading(Step(s, SetTdf(now, after)), now)
  {
    SmallerDivisor((now - s.restart) as real, after, s.tdf);
    TruncMonotone(ExactReading(s, now), ExactReading(s.(tdf := after), now));
  }

  lemma LiveChangeWitness(before: Tdf, after: Tdf) returns (s: ClockState, now: int)
    requires before < after
    ensures s.enabled && s.tdf == before && s.restart <= now
    ensures Reading(Step(s, SetTdf(now, after)), now) < Reading(s, now)
  {
    now := QuotientsDrawApart(before, after);
    s := ClockState(true, 0, 0, before);
    assert ExactReading(s, now) == now as real / before;
    assert ExactReading(s.(tdf := after), now) == now as real / after;
  }

  // ---- The specification: a sum over enabled periods ----

  /** A stretch of real time during which the clock was enabled, and the TDF in force when it
      began. */
  datatype Period = Period(length: int, tdf: Tdf)

  function WholeProgress(p: Period): int {
    (p.length as real / p.tdf).Floor
  }

  function SumFloors(ps: seq<Period>): int {
    if ps == [] then 0 else SumFloors(ps[..|ps| - 1]) + WholeProgress(ps[|ps| - 1])
  }

  function SumExact(ps: seq<Period>): real {
    if ps == [] then 0.0
    else SumExact(ps[..|ps| - 1]) + ps[|ps| - 1].length as real / ps[|ps| - 1].tdf
  }

  /** What the specification keeps: the finished periods, the start of the current one with the
      TDF it began with, and the TDF the next one will begin with. */
  datatype Ledger = Ledger(finished: seq<Period>, current: Option<(int, Tdf)>, next: Tdf)

  function Note(l: Ledger, e: ClockEvent): Ledger {
    match e
    case Enable(at) =>
      if l.current.None? then l.(current := Some((at, l.next))) else l
    case Disable(at) =>
      if l.current.None? then l
      else l.(finished := l.finished + [Period(at - l.current.value.0, l.current.value.1)], current := None)
    case SetTdf(_, tdf) => l.(next := tdf)
    case Read(_) => l
  }

  function LedgerOf(es: seq<ClockEvent>): Ledger {
    if es == [] then Ledger([], None, 1.0) else Note(LedgerOf(es[..|es| - 1]), es[|es| - 1])
  }

  /** All enabled periods up to `now`, the running one included. */
  function Periods(es: seq<ClockEvent>, now: int): seq<Period> {
    var l := LedgerOf(es);
    if l.current.None? then l.finished
    else l.finished + [Period(now - l.current.value.0, l.current.value.1)]
  }

  /** The relation between the compact state and the ledger that every event keeps. */
  ghost predicate Represents(s: ClockState, l: Ledger, initial: int, now: int) {
    && s.enabled == l.current.Some?
    && s.tdf == l.next
    && 0 <= SumFloors(l.finished)
    && (forall p | p in l.finished :: 0 <= p.length)
    && (s.enabled ==>
          && l.current.value == (s.restart, s.tdf)
          && s.restart <= now
          && s.offset + s.restart == initial + SumFloors(l.finished))
    && (!s.enabled ==> s.offset == initial + SumFloors(l.finished))
  }

  lemma PeriodsExtend(ps: seq<Period>, p: Period)
    ensures SumFloors(ps + [p]) == SumFloors(ps) + WholeProgress(p)
    ensures SumExact(ps + [p]) == SumExact(ps) + p.length as real / p.tdf
  {
    assert (ps + [p])[..|ps|] == ps;
  }

  lemma ReadingOfRepresented(s: ClockState, l: Ledger, initial: int, now: int)
    requires 0 <= initial && Represents(s, l, initial, now)
    ensures s.enabled ==>
              var p := Period(now - s.restart, s.tdf);
              && 0 <= WholeProgress(p)
              && Reading(s, now) == initial + SumFloors(l.finished + [p])
  {
    if s.enabled {
      var p := Period(now - s.restart, s.tdf);
      PeriodsExtend(l.finished, p);
      assert p.length as real / s.tdf >= 0.0;
      assert ExactReading(s, now) == (s.restart + s.offset) as real + p.length as real / s.tdf;
    }
  }

  lemma StepKeepsLedger(s: ClockState, l: Ledger, initial: int, e: ClockEvent)
    requires 0 <= initial && Represents(s, l, initial, e.at) && Permitted(s, e)
    ensures Represents(Step(s, e), Note(l, e), initial, e.at)
  {
    if e.Disable? && s.enabled {
      DisableKeepsLedger(s, l, initial, e.at);
    }
  }

  lemma DisableKeepsLedger(s: ClockState, l: Ledger, initial: int, now: int)
    requires 0 <= initial && s.enabled && Represents(s, l, initial, now)
    ensures Represents(Step(s, Disable(now)), Note(l, Disable(now)), initial, now)
  {
    var p := Period(now - s.restart, s.tdf);
    ReadingOfRepresented(s, l, initial, now);
    PeriodsExtend(l.finished, p);
    var finished := l.finished + [p];
    assert Note(l, Disable(now)) == Ledger(finished, None, l.next);
    assert forall q :: q in finished ==> 0 <= q.length;
  }

  lemma {:induction false} RunKeepsLedger(initial: int, es: seq<ClockEvent>, now: int)
    requires 0 <= initial && WellFormed(Created(initial), es)
    requires es != [] ==> es[|es| - 1].at <= now
    ensures Represents(Run(Created(initial), es), LedgerOf(es), initial, now)
  {
    if es != [] {
      var n := |es| - 1;
      PrefixWellFormed(Created(initial), es, n);
      RunKeepsLedger(initial, es[..n], es[n].at);
      assert PermittedAt(Created(initial), es, n);
      StepKeepsLedger(Run(Created(initial), es[..n]), LedgerOf(es[..n]), initial, es[n]);
    }
  }

  lemma {:induction false} AfterPrefix(s: ClockState, es: seq<ClockEvent>, n: nat, k: nat)
    requires k <= n <= |es|
    ensures After(s, es[..n], k) == After(s, es, k)
  {
    if k > 0 {
      AfterPrefix(s, es, n, k - 1);
    }
  }

  lemma PrefixWellFormed(s: ClockState, es: seq<ClockEvent>, n: nat)
    requires n <= |es| && WellFormed(s, es)
    ensures WellFormed(s, es[..n])
    ensures Run(s, es[..n]) == After(s, es, n)
  {
    forall k | 0 <= k < n
      ensures PermittedAt(s, es[..n], k)
    {
      AfterPrefix(s, es, n, k);
      assert PermittedAt(s, es, k);
    }
    AfterPrefix(s, es, n, n);
  }

  lemma ExtendRun(s: ClockState, es: seq<ClockEvent>, e: ClockEvent)
    requires WellFormed(s, es) && Permitted(Run(s, es), e)
    requires if es == [] then s.enabled ==> s.restart <= e.at else es[|es| - 1].at <= e.at
    ensures WellFormed(s, es + [e])
    ensures Run(s, es + [e]) == Step(Run(s, es), e)
  {
    var n := |es|;
    var es' := es + [e];
    assert es'[..n] == es;
    AfterPrefix(s, es', n, n);
    forall k | 0 <= k <= n
      ensures PermittedAt(s, es', k)
    {
      AfterPrefix(s, es', n, k);
      assert k < n ==> PermittedAt(s, es, k);
    }
  }

  /** Refinement, over every well-formed run from creation: at any later instant the clock shows
      its initial value plus the floor of length/tdf of each enabled period so far. */
  lemma ClockRefinesLedger(initial: int, es: seq<ClockEvent>, now: int)
    requires 0 <= initial && WellFormed(Created(initial), es)
    requires es != [] ==> es[|es| - 1].at <= now
    ensures Reading(Run(Created(initial), es), now) == initial + SumFloors(Periods(es, now))
  {
    RunKeepsLedger(initial, es, now);
    ReadingOfRepresented(Run(Created(initial), es), LedgerOf(es), initial, now);
  }

  /** The whole numbers lag the exact sum by less than one per period. */
  lemma {:induction false} FloorsLag(ps: seq<Period>)
    ensures SumFloors(ps) as real <= SumExact(ps)
    ensures ps != [] ==> SumExact(ps) < (SumFloors(ps) + |ps|) as real
  {
    if ps != [] {
      FloorsLag(ps[..|ps| - 1]);
    }
  }

  /** Drift: after n enabled periods with any TDFs, the clock lags the exact dilated time by at
      least 0 and, for n >= 1, by strictly less than n. */
  lemma DriftIsBounded(initial: int, es: seq<ClockEvent>, now: int)
    requires 0 <= initial && WellFormed(Created(initial), es)
    requires es != [] ==> es[|es| - 1].at <= now
    ensures var ps := Periods(es, now);
            var lag := initial as real + SumExact(ps) - Reading(Run(Created(initial), es), now) as real;
            0.0 <= lag && (if ps == [] then lag == 0.0 else lag < |ps| as real)
  {
    ClockRefinesLedger(initial, es, now);
    FloorsLag(Periods(es, now));
  }

  // ---- Whole runs ----

  /** What the clock shows at the instant of event `k`, just before it. */
  function Shown(s: ClockState, es: seq<ClockEvent>, k: nat): int
    requires k < |es|
  {
    Reading(After(s, es, k), es[k].at)
  }

  ghost predicate TdfsAtLeastOne(s: ClockState, es: seq<ClockEvent>) {
    1.0 <= s.tdf && forall k :: 0 <= k < |es| && es[k].SetTdf? ==> 1.0 <= es[k].tdf
  }

  /** Over every well-formed run, from any state, the clock never goes back; and if every TDF is
      at least one, the virtual time between two instants is at most the real time. */
  lemma ClockNeverGoesBack(s: ClockState, es: seq<ClockEvent>, i: nat, j: nat)
    requires WellFormed(s, es) && i <= j < |es|
    ensures Shown(s, es, i) <= Shown(s, es, j)
    ensures TdfsAtLeastOne(s, es) ==> Shown(s, es, j) - Shown(s, es, i) <= es[j].at - es[i].at
  {
    var shown := seq(|es|, k requires 0 <= k < |es| => Shown(s, es, k));
    var times := seq(|es|, k requires 0 <= k < |es| => es[k].at);
    forall k | 0 <= k < |es| - 1
      ensures shown[k] <= shown[k + 1]
      ensures TdfsAtLeastOne(s, es) ==> shown[k + 1] - shown[k] <= times[k + 1] - times[k]
    {
      ShownNext(s, es, k);
    }
    Chained(shown, times, TdfsAtLeastOne(s, es), i, j);
  }

  lemma ShownNext(s: ClockState, es: seq<ClockEvent>, k: nat)
    requires WellFormed(s, es) && k + 1 < |es|
    ensures Shown(s, es, k) <= Shown(s, es, k + 1)
    ensures TdfsAtLeastOne(s, es) ==> Shown(s, es, k + 1) - Shown(s, es, k) <= es[k + 1].at - es[k].at
  {
    assert PermittedAt(s, es, k);
    StepThenWait(After(s, es, k), es[k], es[k + 1].at);
    if TdfsAtLeastOne(s, es) {
      TdfsStayAbove(s, es, k + 1);
    }
  }

  lemma {:induction false} TdfsStayAbove(s: ClockState, es: seq<ClockEvent>, k: nat)
    requires k <= |es| && TdfsAtLeastOne(s, es)
    ensures 1.0 <= After(s, es, k).tdf
  {
    if k > 0 {
      TdfsStayAbove(s, es, k - 1);
    }
  }

  // ---- vm_gettimeofday ----

  /** The pair that vm_gettimeofday derives from the clock. */
  function SecondsPart(time: int): int {
    CDiv(time, 1_000_000_000)
  }

  function MicrosPart(time: int): int {
    CDiv(time - SecondsPart(time) * 1_000_000_000, 1000)
  }

  lemma TimeOfDaySplits(time: int)
    requires 0 <= time
    ensures 0 <= SecondsPart(time) && 0 <= MicrosPart(time) <= 999_999
    ensures var back := SecondsPart(time) * 1_000_000_000 + MicrosPart(time) * 1000;
            back <= time < back + 1000
  {
  }

  ghost predicate LexicographicallyAtMost(s1: int, u1: int, s2: int, u2: int) {
    s1 < s2 || (s1 == s2 && u1 <= u2)
  }

  lemma TimeOfDayMonotone(t1: int, t2: int)
    requires 0 <= t1 <= t2
    ensures LexicographicallyAtMost(SecondsPart(t1), MicrosPart(t1), SecondsPart(t2), MicrosPart(t2))
  {
  }

  /** Along every well-formed run from creation, gettimeofday yields non-decreasing pairs. */
  lemma TimeOfDayNeverGoesBack(initial: int, es: seq<ClockEvent>, i: nat, j: nat)
    requires 0 <= initial && WellFormed(Created(initial), es) && i <= j < |es|
    ensures var t1, t2 := Shown(Created(initial), es, i), Shown(Created(initial), es, j);
            && LexicographicallyAtMost(SecondsPart(t1), MicrosPart(t1), SecondsPart(t2), MicrosPart(t2))
            && 0 <= MicrosPart(t1) <= 999_999
            && SecondsPart(t1) * 1_000_000_000 + MicrosPart(t1) * 1000 <= t1
            && t1 < SecondsPart(t1) * 1_000_000_000 + MicrosPart(t1) * 1000 + 1000
  {
    var s := Created(initial);
    ClockNeverGoesBack(s, es, 0, i);
    ClockNeverGoesBack(s, es, i, j);
    TimeOfDaySplits(Shown(s, es, i));
    TimeOfDayMonotone(Shown(s, es, i), Shown(s, es, j));
  }
}
