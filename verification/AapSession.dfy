/** A connection of the application agent (components/agents/posix/application_agent.c):
    messages one after the other, one of which is handled per receive. */
module AapSession {
  import opened Octets
  import opened Aap
  import opened AapRoundTrip

  /** The parser, the octets in the buffer, and the parsers that came to an end, with
      the messages they hand over. */
  datatype Session = Session(parser: Parser, pending: seq<byte>, ends: seq<Parser>)

  predicate Ready(p: Parser) {
    Wellformed(p) && HasEidStage(p) && p.status == Good
  }

  /** `receive_from_socket`: the buffer is parsed once, and a parser that is done or
      failed is reset. */
  function Receive(s: Session, chunk: seq<byte>): (r: Session)
    requires Ready(s.parser)
    ensures Ready(r.parser)
  {
    var (q, rest) := Consume(s.parser, s.pending + chunk);
    if q.status == Good then Session(q, rest, s.ends) else Session(Start(s.parser.max), rest, s.ends + [q])
  }

  function ReceiveAll(s: Session, chunks: seq<seq<byte>>): (r: Session)
    requires Ready(s.parser)
    ensures Ready(r.parser)
    decreases chunks
  {
    if chunks == [] then s else ReceiveAll(Receive(s, chunks[0]), chunks[1..])
  }

  /** The messages that are handled. */
  function Handled(ends: seq<Parser>): seq<Message> {
    if ends == [] then [] else (if ends[0].status == Done then [ends[0].message] else []) + Handled(ends[1..])
  }

  // ---- What a stream means

  datatype Reading = Reading(ends: seq<Parser>, at: Parser, left: seq<byte>)

  lemma {:induction false} ConsumeShrinks(p: Parser, s: seq<byte>)
    requires Wellformed(p) && HasEidStage(p)
    ensures var (q, rest) := Consume(p, s);
      |rest| <= |s| && q.max == p.max && (p.status == Good && q.status != Good ==> |rest| < |s|)
    decreases |s|
  {
    if p.status == Good && s != [] && Taken(p, s) > 0 {
      ConsumeShrinks(Stepped(p, s[..Taken(p, s)]), s[Taken(p, s)..]);
    }
  }

  /** One message after the other, each by its own parser. */
  function Read(p: Parser, stream: seq<byte>): (r: Reading)
    requires Ready(p)
    decreases |stream|
  {
    ConsumeShrinks(p, stream);
    var (q, rest) := Consume(p, stream);
    if q.status == Good then Reading([], q, rest)
    else
      var r := Read(Start(p.max), rest);
      r.(ends := [q] + r.ends)
  }

  function Meaning(s: Session, more: seq<byte>): Reading
    requires Ready(s.parser)
  {
    var r := Read(s.parser, s.pending + more);
    r.(ends := s.ends + r.ends)
  }

  lemma ReceiveKeeps(s: Session, chunk: seq<byte>, more: seq<byte>)
    requires Ready(s.parser)
    ensures Meaning(Receive(s, chunk), more) == Meaning(s, chunk + more)
  {
    hide Consume, Ready;
    ReadyParts(s.parser);
    var stream := s.pending + chunk;
    assert stream + more == s.pending + (chunk + more);
    ConsumeSplit(s.parser, stream, more);
    var (q, rest) := Consume(s.parser, stream);
    ReadStep(s.parser, stream + more);
    if q.status == Good {
      ReadyIs(q);
      ReadStep(q, rest + more);
      ConsumeShrinks(s.parser, stream);
    } else {
      Stays(q, rest + more);
      var r := Read(Start(s.parser.max), rest + more);
      assert s.ends + [q] + r.ends == s.ends + ([q] + r.ends);
    }
  }

  lemma ReadyParts(p: Parser)
    requires Ready(p)
    ensures Wellformed(p) && HasEidStage(p) && p.status == Good
  {
  }

  lemma ReadyIs(p: Parser)
    requires Wellformed(p) && HasEidStage(p) && p.status == Good
    ensures Ready(p)
  {
  }

  lemma ReadStep(p: Parser, stream: seq<byte>)
    requires Ready(p)
    ensures var (q, rest) := Consume(p, stream);
      && Ready(Start(p.max)) && |rest| <= |stream|
      && Read(p, stream) == if q.status == Good then Reading([], q, rest)
                            else var r := Read(Start(p.max), rest); r.(ends := [q] + r.ends)
  {
    hide Consume;
    ConsumeShrinks(p, stream);
  }

  lemma Stays(p: Parser, s: seq<byte>)
    requires Wellformed(p) && HasEidStage(p) && p.status != Good
    ensures Consume(p, s) == (p, s)
  {
  }

  lemma {:induction false} ReceiveAllKeeps(s: Session, chunks: seq<seq<byte>>)
    requires Ready(s.parser)
    ensures Meaning(ReceiveAll(s, chunks), []) == Meaning(s, Concat(chunks))
    ensures |ReceiveAll(s, chunks).ends| <= |s.ends| + |chunks|
    decreases chunks
  {
    hide Meaning, Receive, Ready;
    if chunks != [] {
      ReceiveAllKeeps(Receive(s, chunks[0]), chunks[1..]);
      ReceiveKeeps(s, chunks[0], Concat(chunks[1..]));
      AtMostOne(s, chunks[0]);
    }
  }

  lemma AtMostOne(s: Session, chunk: seq<byte>)
    requires Ready(s.parser)
    ensures |Receive(s, chunk).ends| <= |s.ends| + 1
  {
  }

  // ---- Streams of messages

  /** Messages that are read back. */
  predicate Sendable(ms: seq<Message>, max: nat) {
    forall i :: 0 <= i < |ms| ==> Accepted(ms[i], max) && !(HasPayload(ms[i].kind) && ms[i].eid == Some([]))
  }

  function Stream(ms: seq<Message>, max: nat): seq<byte>
    requires Sendable(ms, max)
  {
    if ms == [] then [] else Serialized(ms[0]) + Stream(ms[1..], max)
  }

  lemma {:induction false} StreamRead(ms: seq<Message>, max: nat)
    requires Sendable(ms, max)
    ensures Ready(Start(max))
    ensures var r := Read(Start(max), Stream(ms, max));
      r.at == Start(max) && r.left == [] && |r.ends| == |ms| && Handled(r.ends) == ms
  {
    hide Consume, Read, Serialized, Accepted, HasPayload;
    ReadStep(Start(max), Stream(ms, max));
    if ms == [] {
      NothingConsumed(Start(max));
    } else {
      StreamRead(ms[1..], max);
      SerialisedIsParsed(ms[0], max, Stream(ms[1..], max));
      var q := Consume(Start(max), Stream(ms, max)).0;
      var rest := Read(Start(max), Stream(ms[1..], max)).ends;
      assert ([q] + rest)[1..] == rest;
    }
  }

  /** A parser that goes on has left the first stage. */
  lemma {:induction false} NotAtStart(p: Parser, s: seq<byte>)
    requires Ready(p) && s != [] && Consume(p, s).1 == [] && Consume(p, s).0.status == Good
    ensures Consume(p, s).0.stage != Type
    decreases |s|
  {
    var n := Taken(p, s);
    var q := Stepped(p, s[..n]);
    if q.status == Good {
      if s[n..] == [] {
        assert Consume(q, s[n..]) == (q, []);
      } else {
        NotAtStart(q, s[n..]);
      }
    }
  }

  lemma {:induction false} HandledPrefix(a: seq<Parser>, b: seq<Parser>)
    ensures Handled(a + b) == Handled(a) + Handled(b)
  {
    if a == [] {
      assert a + b == b;
    } else {
      assert (a + b)[1..] == a[1..] + b;
      HandledPrefix(a[1..], b);
    }
  }

  /** Messages that come in, in whatever chunks: those handled so far are the first
      of them, in order, and no more than there were chunks. All of them have been
      parsed if and only if the buffer is empty. */
  lemma MessagesHandled(ms: seq<Message>, max: nat, chunks: seq<seq<byte>>)
    requires Sendable(ms, max) && Concat(chunks) == Stream(ms, max)
    ensures Ready(Start(max))
    ensures var s := ReceiveAll(Session(Start(max), [], []), chunks);
      && Handled(s.ends) <= ms && |s.ends| <= |chunks|
      && (|s.ends| == |ms| <==> s.pending == [])
      && (s.pending == [] ==> Handled(s.ends) == ms)
  {
    hide ReceiveAll, Read, Handled, Stream, Sendable, Ready;
    StreamRead(ms, max);
    var first := Session(Start(max), [], []);
    ReceiveAllKeeps(first, chunks);
    assert [] + Stream(ms, max) == Stream(ms, max);
    var s := ReceiveAll(first, chunks);
    var all := Read(Start(max), Stream(ms, max)).ends;
    assert [] + all == all && s.pending + [] == s.pending;
    var ahead := Read(s.parser, s.pending);
    assert s.ends + ahead.ends == all;
    HandledPrefix(s.ends, ahead.ends);
    PendingExactly(s.parser, s.pending, max);
    if s.pending == [] {
      assert s.ends == all;
    }
  }

  lemma PendingExactly(p: Parser, pending: seq<byte>, max: nat)
    requires Ready(p)
    requires Read(p, pending).at == Start(max) && Read(p, pending).left == []
    ensures Read(p, pending).ends == [] <==> pending == []
  {
    hide Consume;
    ReadStep(p, pending);
    if pending == [] {
      NothingConsumed(p);
    } else if Consume(p, pending).0.status == Good {
      NotAtStart(p, pending);
      assert false;
    }
  }

  /** Two messages in one chunk: the second waits for another receive. */
  lemma SecondMessageWaits(max: nat)
    ensures var ping := Message(8, None, None, 0);
      && Accepted(ping, max)
      && ReceiveAll(Session(Start(max), [], []), [Serialized(ping) + Serialized(ping)]).pending == Serialized(ping)
  {
    hide Consume, Serialized;
    var ping := Message(8, None, None, 0);
    SerialisedIsParsed(ping, max, Serialized(ping));
    var s := Session(Start(max), [], []);
    var chunk := Serialized(ping) + Serialized(ping);
    var chunks: seq<seq<byte>> := [chunk];
    assert [] + chunk == chunk && chunks[1..] == [];
    assert ReceiveAll(s, chunks) == ReceiveAll(Receive(s, chunk), []);
  }
}
