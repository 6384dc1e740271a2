/** The byte stream of framed messages: what a sender writes and what a reader makes of it. */
module Framing {
  import opened Wrappers
  import opened RawMessages

  function Frame(body: seq<byte>): seq<byte> {
    EncodeHeader(|body|) + body
  }

  /** The frames of all bodies, one after the other. */
  function Wire(bodies: seq<seq<byte>>): seq<byte> {
    if bodies == [] then [] else Frame(bodies[0]) + Wire(bodies[1..])
  }

  /** The next message on a stream, as the C string that reaches processTcpMsg, and how many bytes its
      frame takes; None if the session is left: the stream ends, or the header is not accepted. */
  function NextMessage(stream: seq<byte>): (next: Option<(seq<byte>, nat)>)
    ensures next.Some? ==> HEADER_LENGTH <= next.value.1 <= |stream|
  {
    if |stream| < HEADER_LENGTH then None
    else
      var (length, ok) := DecodeHeader(stream[..HEADER_LENGTH]);
      if !ok || |stream| < HEADER_LENGTH + length then None
      else Some((CString(stream[HEADER_LENGTH..HEADER_LENGTH + length]), HEADER_LENGTH + length))
  }

  /** All messages of a stream. */
  function ReadFrames(stream: seq<byte>): seq<seq<byte>>
    decreases |stream|
  {
    var next := NextMessage(stream);
    if next.None? then [] else [next.value.0] + ReadFrames(stream[next.value.1..])
  }

  function CStrings(bodies: seq<seq<byte>>): seq<seq<byte>> {
    if bodies == [] then [] else [CString(bodies[0])] + CStrings(bodies[1..])
  }

  ghost predicate Sendable(bodies: seq<seq<byte>>) {
    forall b :: b in bodies ==> |b| <= MAX_BODY_LENGTH
  }

  lemma FirstFrame(body: seq<byte>, rest: seq<byte>)
    requires |body| <= MAX_BODY_LENGTH
    ensures ReadFrames(Frame(body) + rest) == [CString(body)] + ReadFrames(rest)
  {
    HeaderRoundTrip(|body|);
    var stream := Frame(body) + rest;
    assert stream[..HEADER_LENGTH] == EncodeHeader(|body|);
    assert stream[HEADER_LENGTH..HEADER_LENGTH + |body|] == body;
    assert stream[HEADER_LENGTH + |body|..] == rest;
  }

  /** Whatever follows on the stream, the reader gets every body, in order, up to its first NUL, and
      then continues with what follows. */
  lemma {:induction false} FramingRoundTrip(bodies: seq<seq<byte>>, rest: seq<byte>)
    requires Sendable(bodies)
    ensures ReadFrames(Wire(bodies) + rest) == CStrings(bodies) + ReadFrames(rest)
  {
    if bodies == [] {
      assert Wire(bodies) + rest == rest;
    } else {
      var first, others := bodies[0], bodies[1..];
      FramingRoundTrip(others, rest);
      FirstFrame(first, Wire(others) + rest);
      Regrouped(Frame(first), Wire(others), rest);
      Regrouped([CString(first)], CStrings(others), ReadFrames(rest));
    }
  }

  lemma Regrouped<X>(a: seq<X>, b: seq<X>, c: seq<X>)
    ensures (a + b) + c == a + (b + c)
  {
  }

  lemma {:induction false} CStringIsWhole(s: seq<byte>)
    ensures CString(s) == s <==> NUL !in s
  {
    if NUL !in s {
      CStringWithoutNul(s);
    }
  }

  lemma {:induction false} CStringsAreWhole(bodies: seq<seq<byte>>)
    ensures CStrings(bodies) == bodies <==> forall b :: b in bodies ==> NUL !in b
  {
    if bodies != [] {
      CStringIsWhole(bodies[0]);
      CStringsAreWhole(bodies[1..]);
      assert bodies == [bodies[0]] + bodies[1..];
      if CStrings(bodies) == bodies {
        assert CString(bodies[0]) == CStrings(bodies)[0] == bodies[0];
        assert CStrings(bodies[1..]) == CStrings(bodies)[1..] == bodies[1..];
      }
    }
  }

  /** The round trip returns the very list that was sent exactly when no body contains a NUL byte. */
  lemma RoundTripIsExact(bodies: seq<seq<byte>>)
    requires Sendable(bodies)
    ensures ReadFrames(Wire(bodies)) == bodies <==> forall b :: b in bodies ==> NUL !in b
  {
    FramingRoundTrip(bodies, []);
    assert Wire(bodies) + [] == Wire(bodies);
    CStringsAreWhole(bodies);
  }

  /** More bytes do not change the messages that have already arrived: a stream that breaks off
      delivers a prefix of what the longer stream delivers. */
  lemma {:induction false} BrokenStreamGivesPrefix(stream: seq<byte>, more: seq<byte>)
    ensures ReadFrames(stream) <= ReadFrames(stream + more)
    decreases |stream|
  {
    var next := NextMessage(stream);
    if next.Some? {
      var used := next.value.1;
      var whole := stream + more;
      assert whole[..HEADER_LENGTH] == stream[..HEADER_LENGTH];
      assert whole[HEADER_LENGTH..used] == stream[HEADER_LENGTH..used];
      assert whole[used..] == stream[used..] + more;
      BrokenStreamGivesPrefix(stream[used..], more);
    }
  }
}
