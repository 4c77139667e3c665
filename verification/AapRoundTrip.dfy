/** Parsing what the serialiser of the application agent protocol wrote, in any
    chunks, gives the message back. */
module AapRoundTrip {
  import opened Octets
  import opened Aap
  import Cbor

  // ---- Chunks

  /** Part of an EID or a payload, then more of it. */
  lemma PartMerged(p: Parser, a: seq<byte>, b: seq<byte>)
    requires Wellformed(p) && HasEidStage(p) && p.status == Good && (p.stage == Eid || p.stage == Payload)
    requires a != [] && b != [] && |a| + |b| <= p.remaining
    ensures var q := Stepped(p, a);
      && q.status == Good && q.stage == p.stage && q.remaining == p.remaining - |a|
      && Stepped(q, b) == Stepped(p, a + b)
  {
    if p.stage == Eid {
      assert p.message.eid.value + a + b == p.message.eid.value + (a + b);
    } else {
      assert p.message.payload.value + a + b == p.message.payload.value + (a + b);
    }
  }

  lemma PartTaken(p: Parser, x: seq<byte>, y: seq<byte>)
    requires Wellformed(p) && HasEidStage(p) && p.status == Good && (p.stage == Eid || p.stage == Payload)
    requires x != [] && |x| < p.remaining
    ensures Consume(p, x) == (Stepped(p, x), [])
    ensures Consume(p, x + y) == Consume(Stepped(p, x), y)
  {
    hide Stepped;
    assert x[..|x|] == x && x[|x|..] == [];
    StillGood(p, x);
    var q := Stepped(p, x);
    if y == [] {
      assert x + y == x;
    } else {
      var n := Min(|y|, q.remaining);
      assert Taken(q, y) == n && Taken(p, x + y) == |x| + n;
      assert (x + y)[..|x| + n] == x + y[..n] && (x + y)[|x| + n..] == y[n..];
      PartMerged(p, x, y[..n]);
    }
  }

  lemma StillGood(p: Parser, x: seq<byte>)
    requires Wellformed(p) && HasEidStage(p) && p.status == Good && (p.stage == Eid || p.stage == Payload)
    requires x != [] && |x| < p.remaining
    ensures var q := Stepped(p, x); q.status == Good && q.stage == p.stage && q.remaining == p.remaining - |x|
  {
  }

  /** Octets that were left over, presented again in front of more, give what one
      buffer would have given. */
  lemma {:induction false} ConsumeSplit(p: Parser, x: seq<byte>, y: seq<byte>)
    requires Wellformed(p) && HasEidStage(p)
    ensures var (q, rest) := Consume(p, x); Consume(p, x + y) == Consume(q, rest + y)
    decreases |x|
  {
    hide Stepped;
    if p.status != Good || x == [] {
    } else if (p.stage == Eid || p.stage == Payload) && |x| < p.remaining {
      PartTaken(p, x, y);
      assert [] + y == y;
    } else {
      var n := Taken(p, x);
      if n > 0 {
        assert Taken(p, x + y) == n;
        assert (x + y)[..n] == x[..n] && (x + y)[n..] == x[n..] + y;
        ConsumeSplit(Stepped(p, x[..n]), x[n..], y);
      }
    }
  }

  /** Chunks as they arrive, each behind what was left over before. */
  function Drive(p: Parser, pending: seq<byte>, chunks: seq<seq<byte>>): (Parser, seq<byte>)
    requires Wellformed(p) && HasEidStage(p)
    decreases chunks
  {
    if chunks == [] then (p, pending)
    else
      var (q, rest) := Consume(p, pending + chunks[0]);
      Drive(q, rest, chunks[1..])
  }

  lemma {:induction false} ConsumeStops(p: Parser, s: seq<byte>)
    requires Wellformed(p) && HasEidStage(p)
    ensures var (q, rest) := Consume(p, s); Consume(q, rest) == (q, rest)
    decreases |s|
  {
    hide Stepped;
    if s != [] && p.status == Good && Taken(p, s) > 0 {
      ConsumeStops(Stepped(p, s[..Taken(p, s)]), s[Taken(p, s)..]);
    }
  }

  lemma {:induction false} ChunkingFrom(p: Parser, pending: seq<byte>, chunks: seq<seq<byte>>)
    requires Wellformed(p) && HasEidStage(p) && Consume(p, pending) == (p, pending)
    ensures Drive(p, pending, chunks) == Consume(p, pending + Concat(chunks))
    decreases chunks
  {
    hide Consume;
    if chunks == [] {
      assert pending + [] == pending;
    } else {
      var s := pending + chunks[0];
      var (q, rest) := Consume(p, s);
      ConsumeSplit(p, s, Concat(chunks[1..]));
      ConsumeStops(p, s);
      ChunkingFrom(q, rest, chunks[1..]);
      assert pending + (chunks[0] + Concat(chunks[1..])) == s + Concat(chunks[1..]);
    }
  }

  // ---- Parts of a message

  lemma TypeRead(m: Message, max: nat, rest: seq<byte>)
    requires Valid(m)
    ensures var q := Start(max).(message := NO_MESSAGE.(kind := m.kind));
      && Wellformed(q) && HasEidStage(q)
      && (HasEid(m.kind) ==>
            Consume(Start(max), [0x10 + m.kind] + rest) == Consume(q.(stage := EidLength), rest))
      && (HasBundleId(m.kind) ==>
            Consume(Start(max), [0x10 + m.kind] + rest) == Consume(q.(stage := BundleId), rest))
      && (!HasEid(m.kind) && !HasBundleId(m.kind) ==>
            Consume(Start(max), [0x10 + m.kind] + rest) == (q.(status := Done), rest))
  {
    var s := [0x10 + m.kind] + rest;
    assert s[..1] == [s[0]] && s[1..] == rest;
    assert s[0] / 16 == 1 && s[0] % 16 == m.kind;
  }

  /** A number of `k` octets where the stage expects one. */
  lemma NumberRead(p: Parser, n: nat, k: nat, rest: seq<byte>)
    requires Wellformed(p) && HasEidStage(p) && p.status == Good
    requires (p.stage == EidLength && k == 2) || ((p.stage == PayloadLength || p.stage == BundleId) && k == 8)
    requires n < Cbor.Pow256(k)
    ensures Consume(p, Cbor.BigEndian(n, k) + rest) == Consume(
        match p.stage
        case EidLength => ParseEidLength(p, n)
        case PayloadLength => ParsePayloadLength(p, n)
        case _ => ParseBundleId(p, n),
      rest)
  {
    hide Cbor.BigEndian, Cbor.FromBigEndian, Cbor.Pow256;
    Cbor.BigEndianRoundTrip(n, k);
    var s := Cbor.BigEndian(n, k) + rest;
    assert s[..k] == Cbor.BigEndian(n, k) && s[k..] == rest;
  }

  lemma BodyRead(p: Parser, body: seq<byte>, rest: seq<byte>)
    requires Wellformed(p) && HasEidStage(p) && p.status == Good && (p.stage == Eid || p.stage == Payload)
    requires |body| == p.remaining
    ensures Consume(p, body + rest) == Consume(Stepped(p, body), rest)
  {
    hide Stepped;
    assert (body + rest)[..|body|] == body && (body + rest)[|body|..] == rest;
  }

  lemma Limits()
    ensures Cbor.Pow256(2) == TWO_16 && Cbor.Pow256(8) == TWO_64
  {
    Cbor.PowersOf256();
  }

  /** The message up to its EID. */
  lemma EidRead(m: Message, max: nat, rest: seq<byte>)
    requires Valid(m) && HasEid(m.kind)
    ensures var q := Parser(Good, Eid, Message(m.kind, m.eid, None, 0), 0, max);
      Consume(Start(max), [0x10 + m.kind] + EidPart(m) + rest)
      == if |m.eid.value| == 0 then (q.(status := Done), rest)
         else if HasPayload(m.kind) then Consume(q.(stage := PayloadLength), rest)
         else (q.(status := Done), rest)
  {
    hide Cbor.BigEndian, Cbor.Pow256, Valid;
    EidFits(m);
    Limits();
    var eid := m.eid.value;
    var head := Cbor.BigEndian(|eid|, 2);
    assert [0x10 + m.kind] + EidPart(m) + rest == [0x10 + m.kind] + (head + (eid + rest));
    TypeRead(m, max, head + (eid + rest));
    var p := Start(max).(message := NO_MESSAGE.(kind := m.kind), stage := EidLength);
    NumberRead(p, |eid|, 2, eid + rest);
    var q := ParseEidLength(p, |eid|);
    if |eid| == 0 {
      assert eid + rest == rest && eid == [];
    } else {
      BodyRead(q, eid, rest);
      assert [] + eid == eid;
    }
  }

  lemma EidFits(m: Message)
    requires Valid(m) && HasEid(m.kind)
    ensures m.eid.Some? && |m.eid.value| < TWO_16 && m.kind <= 10
  {
  }

  lemma PayloadRead(m: Message, max: nat, rest: seq<byte>)
    requires Valid(m) && HasPayload(m.kind) && (max != 0 ==> |m.payload.value| <= max)
    ensures var q := Parser(Good, PayloadLength, Message(m.kind, m.eid, None, 0), 0, max);
      Consume(q, PayloadPart(m) + rest) == (Parser(Done, Payload, m, 0, max), rest)
  {
    hide Cbor.BigEndian, Cbor.Pow256;
    Limits();
    var payload := m.payload.value;
    var q := Parser(Good, PayloadLength, Message(m.kind, m.eid, None, 0), 0, max);
    assert PayloadPart(m) + rest == Cbor.BigEndian(|payload|, 8) + (payload + rest);
    NumberRead(q, |payload|, 8, payload + rest);
    var r := ParsePayloadLength(q, |payload|);
    if payload == [] {
      assert payload + rest == rest;
    } else {
      BodyRead(r, payload, rest);
      assert [] + payload == payload;
    }
  }

  // ---- Whole messages

  predicate Accepted(m: Message, max: nat) {
    Valid(m) && (m.payload.Some? && max != 0 ==> |m.payload.value| <= max)
  }

  /** A message is read back, and exactly its octets are consumed, unless an empty
      EID is followed by a payload. */
  lemma SerialisedIsParsed(m: Message, max: nat, rest: seq<byte>)
    requires Accepted(m, max) && !(HasPayload(m.kind) && m.eid == Some([]))
    ensures var (p, left) := Consume(Start(max), Serialized(m) + rest);
      p.status == Done && p.message == m && left == rest
  {
    hide Consume, Cbor.BigEndian, Cbor.Pow256, EidPart, PayloadPart;
    Limits();
    var first := [0x10 + m.kind];
    if HasEid(m.kind) {
      assert IdPart(m) == [];
      assert Serialized(m) + rest == first + EidPart(m) + (PayloadPart(m) + rest);
      EidRead(m, max, PayloadPart(m) + rest);
      if HasPayload(m.kind) {
        PayloadRead(m, max, rest);
      } else {
        assert PayloadPart(m) + rest == rest by { NoPayload(m); }
      }
    } else {
      NoEid(m);
      NoPayload(m);
      assert Serialized(m) + rest == first + (IdPart(m) + rest);
      TypeRead(m, max, IdPart(m) + rest);
      if HasBundleId(m.kind) {
        NumberRead(Start(max).(message := NO_MESSAGE.(kind := m.kind), stage := BundleId), m.bundleId, 8, rest);
        DoneStays(Parser(Done, BundleId, m, 0, max), rest);
      } else {
        assert IdPart(m) + rest == rest;
      }
    }
  }

  lemma DoneStays(p: Parser, rest: seq<byte>)
    requires Wellformed(p) && p.status == Done
    ensures HasEidStage(p) && Consume(p, rest) == (p, rest)
  {
  }

  lemma NoEid(m: Message)
    requires Valid(m) && !HasEid(m.kind)
    ensures EidPart(m) == []
  {
  }

  lemma NoPayload(m: Message)
    requires Valid(m) && !HasPayload(m.kind)
    ensures PayloadPart(m) == []
  {
  }

  /** With an empty EID the parser stops before the payload. */
  lemma EmptyEidStops(m: Message, max: nat, rest: seq<byte>)
    requires Accepted(m, max) && HasPayload(m.kind) && m.eid == Some([])
    ensures var (p, left) := Consume(Start(max), Serialized(m) + rest);
      p.status == Done && p.message.payload == None && left == PayloadPart(m) + rest
  {
    hide Consume, Cbor.BigEndian, EidPart, PayloadPart;
    assert Serialized(m) + rest == [0x10 + m.kind] + EidPart(m) + (PayloadPart(m) + rest);
    EidRead(m, max, PayloadPart(m) + rest);
  }

  /** The parser gives a valid message back, for every chunking and whatever
      follows it, if and only if no empty EID is followed by a payload. */
  lemma RoundTripExactly(m: Message, max: nat, chunks: seq<seq<byte>>, rest: seq<byte>)
    requires Accepted(m, max) && Concat(chunks) == Serialized(m) + rest
    ensures Drive(Start(max), [], chunks).0.message == m <==> !(HasPayload(m.kind) && m.eid == Some([]))
    ensures Drive(Start(max), [], chunks).0.message == m ==>
              Drive(Start(max), [], chunks).0.status == Done && Drive(Start(max), [], chunks).1 == rest
  {
    hide Consume, Drive, Serialized, PayloadPart;
    NothingConsumed(Start(max));
    ChunkingFrom(Start(max), [], chunks);
    assert [] + Concat(chunks) == Concat(chunks);
    if HasPayload(m.kind) && m.eid == Some([]) {
      EmptyEidStops(m, max, rest);
    } else {
      SerialisedIsParsed(m, max, rest);
    }
  }

  lemma NothingConsumed(p: Parser)
    requires Wellformed(p) && HasEidStage(p)
    ensures Consume(p, []) == (p, [])
  {
  }
}
