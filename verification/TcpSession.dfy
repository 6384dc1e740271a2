/** The objects of net/TcpSession.cpp and net/TcpConnectionManager.cpp. The socket is a parameter: the
    bytes that arrive, and whether an operation failed. */
module TcpSessions {
  import opened Wrappers
  import opened RawMessages
  import opened Framing
  import opened Delivery

  class TcpSession {
    const readMsg: RawMessage
    var writeMsgs: seq<Message>
    var outstanding: Option<Message>   // what the pending async_write is writing

    ghost var failed: bool
    ghost var handed: seq<Message>
    ghost var completed: seq<Message>

    ghost function Queue(): Link
      reads this
    {
      Link(writeMsgs, outstanding, failed, handed, completed)
    }

    ghost predicate Readable()
      reads this, readMsg
    {
      readMsg.Valid()
    }

    constructor ()
      ensures Readable() && fresh(readMsg) && fresh(readMsg.data)
      ensures Queue() == NewLink()
    {
      readMsg := new RawMessage();
      writeMsgs := [];
      outstanding := None;
      failed, handed, completed := false, [], [];
    }

    /** deliver: starts a write only if none is in progress. */
    method Deliver(msg: Message)
      modifies this
      ensures Queue() == Delivered(old(Queue()), msg)
    {
      var writeInProgress := writeMsgs != [];
      writeMsgs := writeMsgs + [msg];
      if !writeInProgress {
        outstanding := Some(writeMsgs[0]);
      }
      handed := handed + [msg];
    }

    /** handleWrite; the result tells whether the session leaves the manager. */
    method HandleWrite(error: bool) returns (leave: bool)
      requires outstanding.Some? && writeMsgs != []
      modifies this
      ensures Queue() == Written(old(Queue()), error)
      ensures leave == error
    {
      if !error {
        completed := completed + [writeMsgs[0]];
        writeMsgs := writeMsgs[1..];
        outstanding := if writeMsgs != [] then Some(writeMsgs[0]) else None;
        leave := false;
      } else {
        outstanding := None;
        failed := true;
        leave := true;
      }
    }

    /** handleReadHeader, after four bytes were read into the buffer, or not: the number of bytes of
        the body to read next, or None when the session leaves. */
    method HandleReadHeader(error: bool) returns (next: Option<nat>)
      requires Readable()
      modifies readMsg
      ensures Readable()
      ensures error ==> next == None && readMsg.bodyLength == old(readMsg.bodyLength)
      ensures !error ==>
                var (length, ok) := DecodeHeader(readMsg.data[..HEADER_LENGTH]);
                readMsg.bodyLength == length && next == if ok then Some(length) else None
    {
      if error {
        return None;
      }
      var ok := readMsg.DecodeHeaderInPlace();
      next := if ok then Some(readMsg.bodyLength) else None;
    }

    /** handleReadBody, after the body was read into the buffer, or not: the terminated C string that
        goes to processTcpMsg, or None when the session leaves. */
    method HandleReadBody(error: bool) returns (message: Option<seq<byte>>)
      requires Readable()
      modifies readMsg.data
      ensures Readable()
      ensures message == if error then None else Some(CString(old(readMsg.Body())))
    {
      if error {
        return None;
      }
      var end := HEADER_LENGTH + readMsg.bodyLength;
      readMsg.data[end] := NUL;
      assert readMsg.data[HEADER_LENGTH..end] == old(readMsg.Body());
      CStringStopsAtNul(old(readMsg.Body()), readMsg.data[end..]);
      assert readMsg.data[HEADER_LENGTH..] == readMsg.data[HEADER_LENGTH..end] + readMsg.data[end..];
      message := Some(CString(readMsg.data[HEADER_LENGTH..]));
    }

    /** One header and one body off a stream that ends after `rest`; `used` is how much of it. */
    method ReadOne(rest: seq<byte>) returns (message: Option<seq<byte>>, used: nat)
      requires Readable()
      modifies readMsg, readMsg.data
      ensures Readable()
      ensures NextMessage(rest) == if message.Some? then Some((message.value, used)) else None
    {
      message, used := None, 0;
      if |rest| >= HEADER_LENGTH {
        readMsg.Fill(0, rest[..HEADER_LENGTH]);
        assert readMsg.data[..HEADER_LENGTH] == readMsg.data[0..0 + HEADER_LENGTH];
      }
      var next := HandleReadHeader(|rest| < HEADER_LENGTH);
      if next.Some? {
        used := HEADER_LENGTH + next.value;
        if |rest| >= used {
          readMsg.Fill(HEADER_LENGTH, rest[HEADER_LENGTH..used]);
          assert readMsg.Body() == rest[HEADER_LENGTH..used];
        }
        message := HandleReadBody(|rest| < used);
      }
    }

    /** The chain of reads that start() begins, on a stream that ends after `stream`. */
    method ReadAll(stream: seq<byte>) returns (messages: seq<seq<byte>>)
      requires Readable()
      modifies readMsg, readMsg.data
      ensures Readable() && messages == ReadFrames(stream)
    {
      messages := [];
      var rest := stream;
      var message, used := ReadOne(rest);
      while message.Some?
        invariant Readable()
        invariant NextMessage(rest) == if message.Some? then Some((message.value, used)) else None
        invariant messages + ReadFrames(rest) == ReadFrames(stream)
        decreases |rest|
      {
        messages := messages + [message.value];
        rest := rest[used..];
        message, used := ReadOne(rest);
      }
    }
  }

  lemma {:induction false} CStringStopsAtNul(s: seq<byte>, t: seq<byte>)
    requires t != [] && t[0] == NUL
    ensures CString(s + t) == CString(s)
  {
    if s == [] {
      assert s + t == t;
    } else {
      assert (s + t)[1..] == s[1..] + t;
      CStringStopsAtNul(s[1..], t);
    }
  }

  class TcpConnectionManager {
    var participants: set<TcpSession>
    var recentMsgs: seq<Message>

    ghost var sessions: set<TcpSession>          // all that ever joined
    ghost var events: seq<Event<TcpSession>>     // all that happened
    ghost var all: seq<Message>                  // all that was delivered

    ghost function State(): Hub<TcpSession>
      reads this, sessions
    {
      Hub(recentMsgs, participants, map s | s in sessions :: s.Queue(), all)
    }

    ghost predicate Valid()
      reads this, sessions
    {
      participants <= sessions && State() == Run(NewHub(), events)
    }

    /** A session that joined this manager before, or a new one. */
    ghost predicate Knows(session: TcpSession)
      reads this, session
    {
      session in sessions || session.Queue() == NewLink()
    }

    constructor ()
      ensures Valid() && State() == NewHub() && sessions == {} && events == []
    {
      participants, recentMsgs := {}, [];
      sessions, events, all := {}, [], [];
    }

    /** join: the newcomer is handed the whole history. */
    method Join(participant: TcpSession)
      requires Valid() && Knows(participant)
      modifies this, participant
      ensures Valid() && State() == Step(old(State()), Event.Join(participant))
      ensures events == old(events) + [Event.Join(participant)] && sessions == old(sessions) + {participant}
      ensures participant.Queue() == DeliveredAll(old(participant.Queue()), recentMsgs)
    {
      ghost var before := State();
      participants := participants + {participant};
      HandHistory(participant);
      sessions := sessions + {participant};
      OneLinkChanged(before, State(), participant);
      Note(Event.Join(participant));
    }

    /** The for_each of join. */
    method HandHistory(participant: TcpSession)
      modifies participant
      ensures participant.Queue() == DeliveredAll(old(participant.Queue()), recentMsgs)
    {
      for i := 0 to |recentMsgs|
        invariant participant.Queue() == DeliveredAll(old(participant.Queue()), recentMsgs[..i])
      {
        participant.Deliver(recentMsgs[i]);
        assert recentMsgs[..i + 1][..i] == recentMsgs[..i];
      }
      assert recentMsgs[..|recentMsgs|] == recentMsgs;
    }

    /** leave, which also ends a read that failed or found no header. */
    method Leave(participant: TcpSession)
      requires Valid()
      modifies this
      ensures Valid() && State() == Step(old(State()), Event.Leave(participant))
      ensures events == old(events) + [Event.Leave(participant)] && sessions == old(sessions)
    {
      participants := participants - {participant};
      Note(Event.Leave(participant));
    }

    /** deliver: the history keeps the last messages, and every participant is handed this one once. */
    method Deliver(msg: Message)
      requires Valid()
      modifies this, participants
      ensures Valid() && State() == Step(old(State()), Event.Deliver(msg))
      ensures events == old(events) + [Event.Deliver(msg)] && sessions == old(sessions)
    {
      ghost var before := State();
      Remember(msg);
      HandToAll(msg);
      all := all + [msg];
      DeliveredTo(before, State(), msg);
      Note(Event.Deliver(msg));
    }

    /** The history of deliver, with its trimming loop. */
    method Remember(msg: Message)
      modifies this`recentMsgs
      ensures recentMsgs == Last(old(recentMsgs) + [msg], MAX_RECENT_MSGS)
    {
      recentMsgs := recentMsgs + [msg];
      while |recentMsgs| > MAX_RECENT_MSGS
        invariant Last(recentMsgs, MAX_RECENT_MSGS) == Last(old(recentMsgs) + [msg], MAX_RECENT_MSGS)
      {
        recentMsgs := recentMsgs[1..];
      }
    }

    /** The for_each of deliver. */
    method HandToAll(msg: Message)
      requires participants <= sessions
      modifies participants
      ensures forall p :: p in sessions ==>
                p.Queue() == if p in participants then Delivered(old(p.Queue()), msg) else old(p.Queue())
    {
      var left := participants;
      while left != {}
        invariant left <= participants
        invariant forall p :: p in sessions ==>
                    p.Queue() == if p in participants - left then Delivered(old(p.Queue()), msg) else old(p.Queue())
        decreases |left|
      {
        var p :| p in left;
        p.Deliver(msg);
        left := left - {p};
      }
    }

    /** A session's handleWrite, with the leave that follows a failed write. */
    method HandleWrite(participant: TcpSession, error: bool)
      requires Valid() && participant in sessions
      requires participant.outstanding.Some? && participant.writeMsgs != []
      modifies this, participant
      ensures Valid() && sessions == old(sessions)
      ensures var e := if error then WriteFailed(participant) else WriteDone(participant);
              State() == Step(old(State()), e) && events == old(events) + [e]
    {
      ghost var before := State();
      var leave := participant.HandleWrite(error);
      if leave {
        participants := participants - {participant};
      }
      ghost var e := if error then WriteFailed(participant) else WriteDone(participant);
      OneLinkChanged(before, State(), participant);
      Note(e);
    }

    ghost method Note(e: Event<TcpSession>)
      requires participants <= sessions && State() == Step(Run(NewHub(), events), e)
      modifies this`events
      ensures Valid() && events == old(events) + [e]
    {
      RunOneMore(NewHub(), events, e);
      events := events + [e];
    }
  }

  /** Whatever calls the manager and its sessions went through: the history is the last min(100, n)
      messages, and what a session wrote and has queued is what it was handed. */
  lemma ManagerKeepsInv(m: TcpConnectionManager)
    requires m.Valid()
    ensures m.recentMsgs == Last(m.all, 100)
    ensures forall s :: s in m.sessions ==> LinkInv(s.Queue())
  {
    RunsKeepInv(m.events);
    forall s | s in m.sessions
      ensures LinkInv(s.Queue())
    {
      assert m.State().links[s] == s.Queue();
    }
  }

  /** A session that joined once, and stayed, has written or queued exactly the messages from number
      max(0, n-100) onward, where n is how many had been delivered when it joined. */
  lemma SessionGetsTheRest(
      m: TcpConnectionManager, s: TcpSession, prior: seq<Event<TcpSession>>, es: seq<Event<TcpSession>>)
    requires m.Valid() && m.events == prior + [Join(s)] + es
    requires Join(s) !in prior && Stays(es, s)
    ensures s in m.participants
    ensures var first := HistoryStart(Run(NewHub(), prior));
            first <= |m.all| && s.completed + s.writeMsgs == m.all[first..]
  {
    RunContinued(NewHub(), prior + [Join(s)], es);
    RunOneMore(NewHub(), prior, Join(s));
    NeverJoined(prior, s);
    JoinerIsHandedTheRest(prior, s, es);
    ManagerKeepsInv(m);
    assert m.State().links[s] == s.Queue();
  }
}
