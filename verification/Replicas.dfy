/** Two whole agents, table and applier, that hear the same messages. */
module Replicas {
  import opened TdfTables
  import opened ReplicaAgreement
  import opened VirtualTime

  function Final<X>(s: seq<X>): X
    requires s != []
  {
    s[|s| - 1]
  }

  /** The messages among the moves, provided they are all that happens to the table. */
  predicate OnlyHears(ms: seq<Move>) {
    forall m :: m in ms && m.Database? ==> m.op.Hear?
  }

  function HeardIn(ms: seq<Move>): seq<Update> {
    if ms == [] then []
    else
      var m := Final(ms);
      HeardIn(ms[..|ms| - 1]) + if m.Database? && m.op.Hear? then [m.op.update] else []
  }

  /** Whatever the applier does meanwhile, the table depends on the messages alone. */
  lemma {:induction false} MovesHear(a: Agent, ms: seq<Move>)
    requires OnlyHears(ms)
    ensures AfterMoves(a, ms).table == HeardAll(a.table, HeardIn(ms), a.threshold)
    ensures AfterMoves(a, ms).threshold == a.threshold
  {
    if ms != [] {
      var before, m := ms[..|ms| - 1], Final(ms);
      MovesHear(a, before);
      assert m in ms;
      OneMoveHears(AfterMoves(a, before), m);
      if m.Database? {
        HeardOneMore(a.table, HeardIn(before), m.op.update, a.threshold);
      } else {
        assert HeardIn(ms) == HeardIn(before);
      }
    }
  }

  lemma OneMoveHears(a: Agent, m: Move)
    requires m.Database? ==> m.op.Hear?
    ensures Apply(a, m).table == if m.Database? then Heard(a.table, m.op.update, a.threshold) else a.table
    ensures Apply(a, m).threshold == a.threshold
  {
  }

  lemma HeardOneMore(t: Table, us: seq<Update>, u: Update, c: real)
    ensures HeardAll(t, us + [u], c) == Heard(HeardAll(t, us, c), u, c)
  {
    assert (us + [u])[..|us|] == us;
  }

  /** An agent that went through a behaviour and then through moves that only announce TDFs, and now
      waits with no notify missed. */
  ghost predicate WaitsAfter(past: seq<Agent>, ms: seq<Move>) {
    && Behaviour(past) && Final(past).table.enabled && OnlyHears(ms) && Executes(Final(past), ms)
    && AfterMoves(Final(past), ms).phase.InWait? && !AfterMoves(Final(past), ms).missed
  }

  lemma WaitingAgentIsCurrent(past: seq<Agent>, ms: seq<Move>)
    requires WaitsAfter(past, ms)
    ensures AfterMoves(Final(past), ms).shared ==
            HeardAll(Final(past).table, HeardIn(ms), Final(past).threshold).latest
  {
    BehaviourKeepsInv(past, |past| - 1);
    MovesKeepInv(Final(past), ms);
    MovesHear(Final(past), ms);
  }

  /** Two agents whose tables were equal once and that have heard the same messages since, in any
      interleavings with each other and with their appliers: when both wait, with no notify missed,
      the TDFs in their shared memories differ by a factor strictly less than (1+c)/(1-c). */
  lemma WaitingAgentsAgree(p: seq<Agent>, ms: seq<Move>, q: seq<Agent>, ns: seq<Move>, c: real)
    requires WaitsAfter(p, ms) && WaitsAfter(q, ns) && SameMessages(HeardIn(ms), HeardIn(ns))
    requires Final(p).table.tdfs == Final(q).table.tdfs
    requires Final(p).threshold == Final(q).threshold == c && 0.0 < c < 1.0
    requires AllPositive(Final(p).table, HeardIn(ms)) && AllPositive(Final(q).table, HeardIn(ns))
    ensures var x, y := AfterMoves(Final(p), ms).shared, AfterMoves(Final(q), ns).shared;
            var factor := (1.0 + c) / (1.0 - c);
            0.0 < x && 0.0 < y && x / y < factor && y / x < factor
  {
    WaitingAgentIsCurrent(p, ms);
    WaitingAgentIsCurrent(q, ns);
    ReplicasAgree(Final(p).table, Final(q).table, HeardIn(ms), HeardIn(ns), c);
  }

  /** And they are equal if all TDFs come from a spaced set. */
  lemma WaitingAgentsEqual(tdfs: iset<real>, p: seq<Agent>, ms: seq<Move>, q: seq<Agent>, ns: seq<Move>, c: real)
    requires WaitsAfter(p, ms) && WaitsAfter(q, ns) && SameMessages(HeardIn(ms), HeardIn(ns))
    requires Final(p).table.tdfs == Final(q).table.tdfs && Final(p).threshold == Final(q).threshold == c
    requires Spaced(tdfs, c) && forall v :: v in tdfs ==> 0.0 < v
    requires DrawnFrom(tdfs, Final(p).table, HeardIn(ms)) && DrawnFrom(tdfs, Final(q).table, HeardIn(ns))
    ensures AfterMoves(Final(p), ms).shared == AfterMoves(Final(q), ns).shared
  {
    WaitingAgentIsCurrent(p, ms);
    WaitingAgentIsCurrent(q, ns);
    SpacedReplicasAgree(tdfs, Final(p).table, Final(q).table, HeardIn(ms), HeardIn(ns), c);
  }
}
