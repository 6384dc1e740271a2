/** Delivery to TCP clients as a state machine: one write outstanding per session
    (net/TcpSession.cpp), and a bounded history handed to whoever joins (net/TcpConnectionManager.cpp). */
module Delivery {
  import opened Wrappers
  import opened RawMessages

  /** An encoded message, header and body. */
  type Message = seq<byte>

  const MAX_RECENT_MSGS: nat := 100

  // ---- One session's write queue ----

  /** `writing` is the message of the outstanding async_write. `handed` and `completed` are history:
      all that deliver() was given, and all writes that completed. */
  datatype Link = Link(
    queue: seq<Message>, writing: Option<Message>, failed: bool,
    handed: seq<Message>, completed: seq<Message>)

  function NewLink(): Link {
    Link([], None, false, [], [])
  }

  /** TcpSession::deliver */
  function Delivered(l: Link, msg: Message): Link {
    var queue := l.queue + [msg];
    l.(queue := queue, writing := if l.queue == [] then Some(queue[0]) else l.writing, handed := l.handed + [msg])
  }

  function DeliveredAll(l: Link, msgs: seq<Message>): Link {
    if msgs == [] then l else Delivered(DeliveredAll(l, msgs[..|msgs| - 1]), msgs[|msgs| - 1])
  }

  /** TcpSession::handleWrite, for the outstanding write. */
  function Written(l: Link, error: bool): Link
    requires l.writing.Some? && l.queue != []
  {
    if error then l.(writing := None, failed := true)
    else
      var rest := l.queue[1..];
      l.(queue := rest, writing := if rest == [] then None else Some(rest[0]), completed := l.completed + [l.queue[0]])
  }

  /** Completed writes and the queue are what was handed over, in order; until a write fails, one is
      outstanding exactly when the queue is not empty, and for its front; afterwards none is, ever. */
  ghost predicate LinkInv(l: Link) {
    && l.handed == l.completed + l.queue
    && (l.failed ==> l.queue != [])
    && l.writing == if l.failed || l.queue == [] then None else Some(l.queue[0])
  }

  lemma DeliveredKeepsInv(l: Link, msg: Message)
    requires LinkInv(l)
    ensures LinkInv(Delivered(l, msg))
  {
    assert l.completed + (l.queue + [msg]) == (l.completed + l.queue) + [msg];
  }

  lemma WrittenKeepsInv(l: Link, error: bool)
    requires LinkInv(l) && l.writing.Some?
    ensures LinkInv(Written(l, error))
  {
    if !error {
      assert l.completed + l.queue == (l.completed + [l.queue[0]]) + l.queue[1..];
    }
  }

  lemma {:induction false} DeliveredAllHands(l: Link, msgs: seq<Message>)
    ensures DeliveredAll(l, msgs).handed == l.handed + msgs
    ensures LinkInv(l) ==> LinkInv(DeliveredAll(l, msgs))
  {
    if msgs != [] {
      var n := |msgs| - 1;
      DeliveredAllHands(l, msgs[..n]);
      if LinkInv(l) {
        DeliveredKeepsInv(DeliveredAll(l, msgs[..n]), msgs[n]);
      }
      assert msgs == msgs[..n] + [msgs[n]];
    }
  }

  // ---- The manager and all its sessions ----

  function Last<X>(s: seq<X>, n: nat): seq<X> {
    if |s| <= n then s else s[|s| - n..]
  }

  /** Sessions are told apart by `Id`. `all` is history: every message delivered so far. */
  datatype Hub<Id(==)> =
    Hub(recent: seq<Message>, participants: set<Id>, links: map<Id, Link>, all: seq<Message>)

  datatype Event<Id(==)> =
    | Join(id: Id) | Leave(id: Id) | Deliver(msg: Message)
    | WriteDone(id: Id) | WriteFailed(id: Id)

  function NewHub<Id>(): Hub<Id> {
    Hub([], {}, map[], [])
  }

  function LinkOf<Id>(h: Hub<Id>, id: Id): Link {
    if id in h.links then h.links[id] else NewLink()
  }

  /** The participants' links after one more message, everybody else's unchanged. */
  function Broadcast<Id>(h: Hub<Id>, msg: Message): map<Id, Link> {
    map id | id in h.links.Keys + h.participants ::
      if id in h.participants then Delivered(LinkOf(h, id), msg) else LinkOf(h, id)
  }

  function Step<Id>(h: Hub<Id>, e: Event<Id>): Hub<Id> {
    match e
    case Join(id) =>
      h.(participants := h.participants + {id}, links := h.links[id := DeliveredAll(LinkOf(h, id), h.recent)])
    case Leave(id) => h.(participants := h.participants - {id})
    case Deliver(msg) =>
      h.(recent := Last(h.recent + [msg], MAX_RECENT_MSGS), links := Broadcast(h, msg), all := h.all + [msg])
    case WriteDone(id) =>
      if LinkOf(h, id).writing.Some? && LinkOf(h, id).queue != []
      then h.(links := h.links[id := Written(LinkOf(h, id), false)])
      else h
    case WriteFailed(id) =>
      if LinkOf(h, id).writing.Some? && LinkOf(h, id).queue != []
      then h.(participants := h.participants - {id}, links := h.links[id := Written(LinkOf(h, id), true)])
      else h
  }

  function Run<Id>(h: Hub<Id>, es: seq<Event<Id>>): Hub<Id> {
    if es == [] then h else Step(Run(h, es[..|es| - 1]), es[|es| - 1])
  }

  ghost predicate Inv<Id>(h: Hub<Id>) {
    && h.recent == Last(h.all, MAX_RECENT_MSGS)
    && forall id :: id in h.links ==> LinkInv(h.links[id])
  }

  lemma LinksInv<Id>(h: Hub<Id>, id: Id)
    requires Inv(h)
    ensures LinkInv(LinkOf(h, id))
  {
  }

  lemma StepKeepsInv<Id>(h: Hub<Id>, e: Event<Id>)
    requires Inv(h)
    ensures Inv(Step(h, e))
  {
    match e
    case Join(id) =>
      LinksInv(h, id);
      DeliveredAllHands(LinkOf(h, id), h.recent);
    case Leave(_) =>
    case Deliver(msg) =>
      assert Last(Last(h.all, MAX_RECENT_MSGS) + [msg], MAX_RECENT_MSGS) == Last(h.all + [msg], MAX_RECENT_MSGS);
      forall id | id in Broadcast(h, msg)
        ensures LinkInv(Broadcast(h, msg)[id])
      {
        LinksInv(h, id);
        DeliveredKeepsInv(LinkOf(h, id), msg);
      }
    case WriteDone(id) =>
      LinksInv(h, id);
      if LinkOf(h, id).writing.Some? {
        WrittenKeepsInv(LinkOf(h, id), false);
      }
    case WriteFailed(id) =>
      LinksInv(h, id);
      if LinkOf(h, id).writing.Some? {
        WrittenKeepsInv(LinkOf(h, id), true);
      }
  }

  /** Over every run, the history is the last min(100, n) messages, and every session's completed
      writes followed by its queue are exactly what it was handed. */
  lemma {:induction false} RunsKeepInv<Id>(es: seq<Event<Id>>)
    ensures Inv(Run(NewHub(), es))
  {
    if es != [] {
      RunsKeepInv(es[..|es| - 1]);
      StepKeepsInv(Run(NewHub(), es[..|es| - 1]), es[|es| - 1]);
    }
  }

  /** The session neither leaves, nor joins again, nor has a write fail. */
  predicate Stays<Id>(es: seq<Event<Id>>, id: Id) {
    forall i :: 0 <= i < |es| ==> !((es[i].Join? || es[i].Leave? || es[i].WriteFailed?) && es[i].id == id)
  }

  lemma HandedByOneEvent<Id>(h: Hub<Id>, e: Event<Id>, id: Id)
    requires id in h.participants && Stays([e], id)
    ensures var news := if e.Deliver? then [e.msg] else [];
            && id in Step(h, e).participants && Step(h, e).all == h.all + news
            && LinkOf(Step(h, e), id).handed == LinkOf(h, id).handed + news
  {
    assert [e][0] == e;
  }

  /** A participant that stays is handed every message that is delivered, in order. */
  lemma {:induction false} ParticipantIsHandedAll<Id>(h: Hub<Id>, es: seq<Event<Id>>, id: Id)
    requires id in h.participants && Stays(es, id)
    ensures id in Run(h, es).participants && h.all <= Run(h, es).all
    ensures LinkOf(Run(h, es), id).handed == LinkOf(h, id).handed + Run(h, es).all[|h.all|..]
  {
    if es != [] {
      var n := |es| - 1;
      assert Stays(es[..n], id) && Stays([es[n]], id);
      ParticipantIsHandedAll(h, es[..n], id);
      HandedByOneEvent(Run(h, es[..n]), es[n], id);
    }
  }

  /** The number of the first message in the history. */
  function HistoryStart<Id>(h: Hub<Id>): nat {
    if |h.all| <= 100 then 0 else |h.all| - 100
  }

  lemma JoinHandsHistory<Id>(h: Hub<Id>, id: Id)
    requires Inv(h)
    ensures LinkOf(Step(h, Join(id)), id).handed == LinkOf(h, id).handed + h.all[HistoryStart(h)..]
  {
    DeliveredAllHands(LinkOf(h, id), h.recent);
    assert h.recent == h.all[HistoryStart(h)..];
  }

  lemma HistoryThenNews(before: seq<Message>, history: seq<Message>, all: seq<Message>, from: nat)
    requires from <= |history| && history <= all
    ensures before + history[from..] + all[|history|..] == before + all[from..]
  {
    assert all[from..] == history[from..] + all[|history|..];
  }

  /** In any run, a session that joins after n deliveries is handed, while it stays, exactly the
      messages from number max(0, n-100) onward, behind what it was handed before. */
  lemma JoinerIsHandedTheRest<Id>(prior: seq<Event<Id>>, id: Id, es: seq<Event<Id>>)
    requires Stays(es, id)
    ensures var h := Run(NewHub(), prior);
            var h' := Run(Step(h, Join(id)), es);
            && id in h'.participants && |h.all| <= |h'.all|
            && LinkOf(h', id).handed == LinkOf(h, id).handed + h'.all[HistoryStart(h)..]
  {
    var h := Run(NewHub(), prior);
    RunsKeepInv(prior);
    JoinHandsHistory(h, id);
    ParticipantIsHandedAll(Step(h, Join(id)), es, id);
    HistoryThenNews(LinkOf(h, id).handed, h.all, Run(Step(h, Join(id)), es).all, HistoryStart(h));
  }

  /** What a join or a completed or failed write does, to the one session concerned. */
  lemma OneLinkChanged<Id>(h: Hub<Id>, h': Hub<Id>, id: Id)
    requires h'.recent == h.recent && h'.all == h.all
    requires h'.links.Keys == h.links.Keys + {id}
    requires forall other :: other in h.links && other != id ==> h'.links[other] == h.links[other]
    ensures h'.participants == h.participants + {id} && h'.links[id] == DeliveredAll(LinkOf(h, id), h.recent) ==>
              h' == Step(h, Join(id))
    ensures LinkOf(h, id).writing.Some? && LinkOf(h, id).queue != [] ==>
              && (h'.participants == h.participants && h'.links[id] == Written(LinkOf(h, id), false) ==>
                    h' == Step(h, WriteDone(id)))
              && (h'.participants == h.participants - {id} && h'.links[id] == Written(LinkOf(h, id), true) ==>
                    h' == Step(h, WriteFailed(id)))
  {
    assert h'.links == h.links[id := h'.links[id]];
  }

  /** What a delivery does, session by session. */
  lemma DeliveredTo<Id>(h: Hub<Id>, h': Hub<Id>, msg: Message)
    requires h.participants <= h.links.Keys && h'.participants == h.participants
    requires h'.recent == Last(h.recent + [msg], MAX_RECENT_MSGS) && h'.all == h.all + [msg]
    requires h'.links.Keys == h.links.Keys
    requires forall id :: id in h.links ==>
               h'.links[id] == if id in h.participants then Delivered(h.links[id], msg) else h.links[id]
    ensures h' == Step(h, Deliver(msg))
  {
    assert h'.links == Broadcast(h, msg);
  }

  lemma RunOneMore<Id>(h: Hub<Id>, es: seq<Event<Id>>, e: Event<Id>)
    ensures Run(h, es + [e]) == Step(Run(h, es), e)
  {
    assert (es + [e])[..|es|] == es;
  }

  lemma RunLonger<Id>(h: Hub<Id>, es: seq<Event<Id>>, init: seq<Event<Id>>, e: Event<Id>, more: seq<Event<Id>>)
    requires Run(h, es + init) == Run(Run(h, es), init) && more == init + [e]
    ensures Run(h, es + more) == Run(Run(h, es), more)
  {
    RunOneMore(h, es + init, e);
    RunOneMore(Run(h, es), init, e);
    assert es + more == (es + init) + [e];
  }

  lemma {:induction false} RunContinued<Id>(h: Hub<Id>, es: seq<Event<Id>>, more: seq<Event<Id>>)
    ensures Run(h, es + more) == Run(Run(h, es), more)
  {
    if more == [] {
      assert es + more == es;
    } else {
      var n := |more| - 1;
      RunContinued(h, es, more[..n]);
      assert more == more[..n] + [more[n]];
      RunLonger(h, es, more[..n], more[n], more);
    }
  }

  lemma {:induction false} NeverJoined<Id>(es: seq<Event<Id>>, id: Id)
    requires Join(id) !in es
    ensures id !in Run(NewHub(), es).participants && LinkOf(Run(NewHub(), es), id) == NewLink()
  {
    if es != [] {
      var n := |es| - 1;
      assert es[n] in es;
      NeverJoined(es[..n], id);
      OutsiderUntouched(Run(NewHub(), es[..n]), es[n], id);
    }
  }

  lemma OutsiderUntouched<Id>(h: Hub<Id>, e: Event<Id>, id: Id)
    requires id !in h.participants && LinkOf(h, id) == NewLink() && e != Join(id)
    ensures id !in Step(h, e).participants && LinkOf(Step(h, e), id) == NewLink()
  {
  }

  predicate Joins<Id>(e: Event<Id>, id: Id) {
    e.Join? && e.id == id
  }

  /** Who is not a participant is handed nothing, until it joins. */
  lemma {:induction false} OutsiderIsHandedNothing<Id>(h: Hub<Id>, es: seq<Event<Id>>, id: Id)
    requires id !in h.participants && forall e :: e in es ==> !Joins(e, id)
    ensures id !in Run(h, es).participants && LinkOf(Run(h, es), id).handed == LinkOf(h, id).handed
  {
    if es != [] {
      var n := |es| - 1;
      assert es[n] in es;
      OutsiderIsHandedNothing(h, es[..n], id);
      OutsiderStepHandsNothing(Run(h, es[..n]), es[n], id);
    }
  }

  lemma OutsiderStepHandsNothing<Id>(h: Hub<Id>, e: Event<Id>, id: Id)
    requires id !in h.participants && !Joins(e, id)
    ensures id !in Step(h, e).participants && LinkOf(Step(h, e), id).handed == LinkOf(h, id).handed
  {
  }

  /** A session that leaves, or whose write fails, is handed nothing more. */
  lemma LeaverIsHandedNothing<Id>(h: Hub<Id>, e: Event<Id>, es: seq<Event<Id>>, id: Id)
    requires e == Leave(id) || (e == WriteFailed(id) && LinkOf(h, id).writing.Some? && LinkOf(h, id).queue != [])
    requires forall f :: f in es ==> !Joins(f, id)
    ensures id !in Run(Step(h, e), es).participants
    ensures LinkOf(Run(Step(h, e), es), id).handed == LinkOf(h, id).handed
  {
    OutsiderIsHandedNothing(Step(h, e), es, id);
  }

  // ---- The queue drains ----

  /** After `n` more writes have completed. */
  function WrittenTimes(l: Link, n: nat): Link
    decreases n
  {
    if n == 0 || l.writing.None? || l.queue == [] then l else WrittenTimes(Written(l, false), n - 1)
  }

  /** Each completed write takes the front of the queue, and as many as there are messages empty it. */
  lemma {:induction false} QueueDrains(l: Link, n: nat)
    requires LinkInv(l) && !l.failed && n <= |l.queue|
    ensures var l' := WrittenTimes(l, n);
            && l'.completed == l.completed + l.queue[..n] && l'.queue == l.queue[n..]
            && l'.writing == if n == |l.queue| then None else Some(l.queue[n])
    decreases n
  {
    if n > 0 {
      WrittenKeepsInv(l, false);
      QueueDrains(Written(l, false), n - 1);
      assert l.queue[..n] == [l.queue[0]] + l.queue[1..][..n - 1];
      assert l.queue[1..][n - 1..] == l.queue[n..];
    }
  }
}
