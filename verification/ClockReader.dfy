/** cpu_get_clock reads the flag, then the shared fields one by one, then the flag again, while other
    threads toggle the clock and change the TDF. A state machine over the single reads. */
module ClockReader {
  import opened Arith
  import opened Wrappers
  import opened VirtualClock

  /** Where the reader is. `Loading` is the evaluation of the dilated expression, whose operands C
      reads in no particular order. */
  datatype Pc = CheckOff | LoadFrozen | RecheckOff | CheckOn | LoadTime | Loading | RecheckOn | Done

  datatype Operands = Operands(base: Option<int>, origin: Option<int>, tdf: Option<Tdf>, offset: Option<int>)

  const NOTHING_READ := Operands(None, None, None, None)

  datatype World = World(
    clock: ClockState,
    now: int,
    pc: Pc,
    time: int,            // `ti`
    operands: Operands,
    retval: int,
    toggles: nat,         // enables and disables since the last flag check that opened a window
    shown: set<int>)      // what the clock has shown at the instants of that window

  ghost predicate Init(w: World) {
    w.pc == CheckOff
  }

  datatype Move =
    | Elapse(duration: nat)                                   // the time source advances
    | Toggle                                                  // cpu_enable_ticks or cpu_disable_ticks
    | ChangeTdf(tdf: Tdf)                                     // while frozen
    | ReadBase | ReadOrigin | ReadTdf | ReadOffset            // the operands
    | Advance                                                 // the reader's other steps

  predicate Enabled(w: World, m: Move) {
    match m
    case Elapse(_) => true
    case Toggle => true
    case ChangeTdf(_) => !w.clock.enabled
    case ReadBase => w.pc == Loading && w.operands.base.None?
    case ReadOrigin => w.pc == Loading && w.operands.origin.None?
    case ReadTdf => w.pc == Loading && w.operands.tdf.None?
    case ReadOffset => w.pc == Loading && w.operands.offset.None?
    case Advance =>
      && w.pc != Done
      && (w.pc == Loading ==>
            w.operands.base.Some? && w.operands.origin.Some? && w.operands.tdf.Some? && w.operands.offset.Some?)
  }

  /** A flag check that passes opens a window. */
  function OpenWindow(w: World, pc: Pc): World {
    w.(pc := pc, operands := NOTHING_READ, toggles := 0, shown := {Reading(w.clock, w.now)})
  }

  function Observe(w: World): World {
    if w.pc == Done then w else w.(shown := w.shown + {Reading(w.clock, w.now)})
  }

  function ToggleEvent(w: World): ClockEvent {
    if w.clock.enabled then Disable(w.now) else Enable(w.now)
  }

  function Apply(w: World, m: Move): World
    requires Enabled(w, m)
  {
    match m
    case Elapse(duration) => Observe(w.(now := w.now + duration))
    case Toggle =>
      Observe(w.(clock := Step(w.clock, ToggleEvent(w)), toggles := if w.pc == Done then w.toggles else w.toggles + 1))
    case ChangeTdf(tdf) => w.(clock := Step(w.clock, SetTdf(w.now, tdf)))
    case ReadBase => w.(operands := w.operands.(base := Some(w.clock.restart)))
    case ReadOrigin => w.(operands := w.operands.(origin := Some(w.clock.restart)))
    case ReadTdf => w.(operands := w.operands.(tdf := Some(w.clock.tdf)))
    case ReadOffset => w.(operands := w.operands.(offset := Some(w.clock.offset)))
    case Advance =>
      match w.pc
      case CheckOff => if !w.clock.enabled then OpenWindow(w, LoadFrozen) else w.(pc := CheckOn)
      case LoadFrozen => w.(retval := w.clock.offset, pc := RecheckOff)
      case RecheckOff => if !w.clock.enabled then w.(pc := Done) else w.(pc := CheckOn)
      case CheckOn => if w.clock.enabled then OpenWindow(w, LoadTime) else w.(pc := CheckOff)
      case LoadTime => w.(time := w.now, pc := Loading)
      case Loading =>
        var o := w.operands;
        var exact := o.base.value as real + (w.time - o.origin.value) as real / o.tdf.value + o.offset.value as real;
        w.(retval := Trunc(exact), pc := RecheckOn)
      case RecheckOn => if w.clock.enabled then w.(pc := Done) else w.(pc := CheckOff)
  }

  ghost predicate Next(w: World, w': World) {
    exists m :: Enabled(w, m) && w' == Apply(w, m)
  }

  ghost predicate Behaviour(b: seq<World>) {
    && b != [] && Init(b[0])
    && forall k :: 0 <= k < |b| - 1 ==> Next(b[k], b[k + 1])
  }

  /** An operand is unread or agrees with the shared fields. */
  ghost predicate Fresh(o: Operands, s: ClockState) {
    && (o.base.Some? ==> o.base.value == s.restart)
    && (o.origin.Some? ==> o.origin.value == s.restart)
    && (o.tdf.Some? ==> o.tdf.value == s.tdf)
    && (o.offset.Some? ==> o.offset.value == s.offset)
  }

  /** Inside a window the flag tells the parity of the toggles; without a toggle, what has been
      read is what the fields still hold. */
  ghost predicate Inv(w: World) {
    match w.pc
    case CheckOff => true
    case CheckOn => true
    case LoadFrozen => w.clock.enabled == (w.toggles % 2 == 1) && Reading(w.clock, w.now) in w.shown
    case RecheckOff =>
      && w.clock.enabled == (w.toggles % 2 == 1) && Reading(w.clock, w.now) in w.shown
      && (w.toggles == 0 ==> w.retval in w.shown)
    case LoadTime =>
      && w.clock.enabled == (w.toggles % 2 == 0) && Reading(w.clock, w.now) in w.shown
      && w.operands == NOTHING_READ
    case Loading =>
      && w.clock.enabled == (w.toggles % 2 == 0)
      && (w.toggles == 0 ==> Fresh(w.operands, w.clock) && Reading(w.clock, w.time) in w.shown)
    case RecheckOn =>
      && w.clock.enabled == (w.toggles % 2 == 0)
      && (w.toggles == 0 ==> w.retval in w.shown)
    case Done => w.toggles <= 1 ==> w.retval in w.shown
  }

  lemma MoveKeepsInv(w: World, m: Move)
    requires Inv(w) && Enabled(w, m)
    ensures Inv(Apply(w, m))
  {
  }

  lemma {:induction false} BehaviourKeepsInv(b: seq<World>, k: nat)
    requires Behaviour(b) && k < |b|
    ensures Inv(b[k])
  {
    if k > 0 {
      BehaviourKeepsInv(b, k - 1);
      assert Next(b[k - 1], b[(k - 1) + 1]);
      var m :| Enabled(b[k - 1], m) && b[k] == Apply(b[k - 1], m);
      MoveKeepsInv(b[k - 1], m);
    }
  }

  /** The answer is what the clock showed at some instant between the flag check and its recheck. */
  ghost predicate Linearizable(w: World) {
    w.pc == Done ==> w.retval in w.shown
  }

  /** With at most `n` toggles in the window every answer is linearizable. */
  ghost predicate Tolerates(n: nat) {
    forall b: seq<World> :: Behaviour(b) && b[|b| - 1].toggles <= n ==> Linearizable(b[|b| - 1])
  }

  /** The retry loop tolerates one toggle per window and no more. */
  lemma ToleratesExactlyOneToggle(n: nat)
    ensures Tolerates(n) <==> n <= 1
  {
    if n <= 1 {
      forall b: seq<World> | Behaviour(b) && b[|b| - 1].toggles <= n
        ensures Linearizable(b[|b| - 1])
      {
        BehaviourKeepsInv(b, |b| - 1);
      }
    } else {
      var b := TwoToggleWitness();
      assert !Linearizable(b[|b| - 1]);
    }
  }

  /** The clock is frozen at 0 when the flag is checked, is enabled at 5 before the offset is read
      and disabled again before the recheck: the answer is -5. */
  lemma TwoToggleWitness() returns (b: seq<World>)
    ensures Behaviour(b)
    ensures b[|b| - 1].toggles == 2 && !Linearizable(b[|b| - 1])
  {
    var frozen, running := ClockState(false, 0, 0, 1.0), ClockState(true, -5, 5, 1.0);
    var again := ClockState(false, 0, 5, 1.0);
    StepIsContinuous(frozen, Enable(5));
    assert Step(frozen, Enable(5)) == running && Reading(running, 5) == 0;
    assert Step(running, Disable(5)) == again;
    var w0 := World(frozen, 5, CheckOff, 0, NOTHING_READ, 0, 0, {});
    var w1 := World(frozen, 5, LoadFrozen, 0, NOTHING_READ, 0, 0, {0});
    var w2 := World(running, 5, LoadFrozen, 0, NOTHING_READ, 0, 1, {0});
    var w3 := World(running, 5, RecheckOff, 0, NOTHING_READ, -5, 1, {0});
    var w4 := World(again, 5, RecheckOff, 0, NOTHING_READ, -5, 2, {0});
    var w5 := World(again, 5, Done, 0, NOTHING_READ, -5, 2, {0});
    assert {0} + {0} == {0};
    assert w1 == Apply(w0, Advance) && w2 == Apply(w1, Toggle);
    assert w3 == Apply(w2, Advance) && w4 == Apply(w3, Toggle);
    assert w5 == Apply(w4, Advance);
    b := [w0, w1, w2, w3, w4, w5];
    assert Next(w0, w1) && Next(w1, w2) && Next(w2, w3) && Next(w3, w4) && Next(w4, w5);
  }

  // ---- The reader gets through ----

  predicate ReaderMove(m: Move) {
    m.ReadBase? || m.ReadOrigin? || m.ReadTdf? || m.ReadOffset? || m.Advance?
  }

  function Unread(o: Operands): nat {
    (if o.base.None? then 1 else 0) + (if o.origin.None? then 1 else 0)
    + (if o.tdf.None? then 1 else 0) + (if o.offset.None? then 1 else 0)
  }

  const MOST_STEPS := 10

  /** The most steps of its own that the reader needs to answer, if nobody toggles the clock. */
  function StepsLeft(w: World): (n: nat)
    ensures n <= MOST_STEPS && (n == 0 <==> w.pc == Done)
  {
    match w.pc
    case Done => 0
    case LoadFrozen => if w.clock.enabled then 10 else 2
    case RecheckOff => if w.clock.enabled then 9 else 1
    case CheckOff => if w.clock.enabled then 9 else 3
    case CheckOn => if w.clock.enabled then 8 else 4
    case LoadTime => if w.clock.enabled then 7 else 10
    case Loading => Unread(w.operands) + if w.clock.enabled then 2 else 5
    case RecheckOn => if w.clock.enabled then 1 else 4
  }

  lemma ReaderComesNearer(w: World, m: Move)
    requires Enabled(w, m)
    ensures ReaderMove(m) ==> StepsLeft(Apply(w, m)) < StepsLeft(w)
    ensures !ReaderMove(m) && !m.Toggle? ==> StepsLeft(Apply(w, m)) == StepsLeft(w)
  {
  }

  lemma ReaderNeverBlocked(w: World) returns (m: Move)
    requires w.pc != Done
    ensures ReaderMove(m) && Enabled(w, m)
  {
    m := if w.pc != Loading then Advance
         else if w.operands.base.None? then ReadBase
         else if w.operands.origin.None? then ReadOrigin
         else if w.operands.tdf.None? then ReadTdf
         else if w.operands.offset.None? then ReadOffset
         else Advance;
  }

  ghost predicate Executes(w: World, ms: seq<Move>)
    decreases |ms|, 0
  {
    ms != [] ==> Executes(w, ms[..|ms| - 1]) && Enabled(AfterMoves(w, ms[..|ms| - 1]), ms[|ms| - 1])
  }

  ghost function AfterMoves(w: World, ms: seq<Move>): World
    requires Executes(w, ms)
    decreases |ms|, 1
  {
    if ms == [] then w else Apply(AfterMoves(w, ms[..|ms| - 1]), ms[|ms| - 1])
  }

  function ReaderSteps(ms: seq<Move>): nat {
    if ms == [] then 0 else ReaderSteps(ms[..|ms| - 1]) + if ReaderMove(ms[|ms| - 1]) then 1 else 0
  }

  function Toggles(ms: seq<Move>): nat {
    if ms == [] then 0 else Toggles(ms[..|ms| - 1]) + if ms[|ms| - 1].Toggle? then 1 else 0
  }

  /** The loop costs at most ten steps more for each toggle, in any interleaving; as the reader is never
      blocked, it answers unless the clock is toggled over and over again. */
  lemma {:induction false} LoopIsBounded(w: World, ms: seq<Move>)
    requires Executes(w, ms)
    ensures ReaderSteps(ms) + StepsLeft(AfterMoves(w, ms)) <= MOST_STEPS * (1 + Toggles(ms))
  {
    if ms != [] {
      LoopIsBounded(w, ms[..|ms| - 1]);
      ReaderComesNearer(AfterMoves(w, ms[..|ms| - 1]), ms[|ms| - 1]);
    }
  }

  /** All that the clock has shown in the window is what it shows. */
  ghost predicate Steady(w: World) {
    Inv(w) && (w.pc == CheckOff || w.pc == CheckOn || (w.toggles == 0 && w.shown == {Reading(w.clock, w.now)}))
  }

  lemma ReaderStaysSteady(w: World, m: Move)
    requires Steady(w) && Enabled(w, m) && ReaderMove(m)
    ensures Steady(Apply(w, m)) && Apply(w, m).clock == w.clock && Apply(w, m).now == w.now
  {
    MoveKeepsInv(w, m);
  }

  /** An undisturbed reader answers, within nine steps, with what the clock shows; before that it always
      has a step to take. */
  lemma {:induction false} UndisturbedReaderAnswers(w: World, ms: seq<Move>)
    requires Init(w) && Executes(w, ms) && forall m :: m in ms ==> ReaderMove(m)
    ensures |ms| + StepsLeft(AfterMoves(w, ms)) <= 9
    ensures Steady(AfterMoves(w, ms))
    ensures AfterMoves(w, ms).clock == w.clock && AfterMoves(w, ms).now == w.now
    ensures AfterMoves(w, ms).pc == Done ==> AfterMoves(w, ms).retval == Reading(w.clock, w.now)
  {
    if ms != [] {
      var before, m := ms[..|ms| - 1], ms[|ms| - 1];
      assert m in ms;
      UndisturbedReaderAnswers(w, before);
      ReaderComesNearer(AfterMoves(w, before), m);
      ReaderStaysSteady(AfterMoves(w, before), m);
    }
  }
}
