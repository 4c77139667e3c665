/** Application agent protocol messages: components/aap/aap_serializer.c and
    components/aap/aap_parser.c. */
module Aap {
  import opened Octets
  import Cbor

  /** A message; `kind` is its type code. Fields that its type does not have are
      absent, and its bundle ID is zero. */
  datatype Message = Message(kind: nat, eid: Option<seq<byte>>, payload: Option<seq<byte>>, bundleId: nat)

  predicate HasEid(kind: nat) {
    kind == 2 || kind == 3 || kind == 4 || kind == 7 || kind == 9 || kind == 10
  }

  predicate HasPayload(kind: nat) {
    kind == 3 || kind == 4 || kind == 9 || kind == 10
  }

  predicate HasBundleId(kind: nat) {
    kind == 5 || kind == 6
  }

  /** `aap_message_is_valid`, for messages that fit in memory; the EID is a string
      without terminator, and a payload of no octets is there. */
  predicate Valid(m: Message) {
    && m.kind <= 10
    && m.eid.Some? == HasEid(m.kind) && (m.eid.Some? ==> |m.eid.value| < TWO_16 && 0 !in m.eid.value)
    && m.payload.Some? == HasPayload(m.kind) && (m.payload.Some? ==> |m.payload.value| < TWO_64)
    && (if HasBundleId(m.kind) then 0 < m.bundleId < TWO_64 else m.bundleId == 0)
  }

  // ---- The serialiser

  /** `aap_get_serialized_size` */
  function SerializedSize(m: Message): nat
    requires Valid(m)
  {
    1 + (if HasEid(m.kind) then 2 + |m.eid.value| else 0)
    + (if HasPayload(m.kind) then 8 + |m.payload.value| else 0)
    + (if HasBundleId(m.kind) then 8 else 0)
  }

  function EidPart(m: Message): seq<byte>
    requires Valid(m)
  {
    if HasEid(m.kind) then Cbor.BigEndian(|m.eid.value|, 2) + m.eid.value else []
  }

  function PayloadPart(m: Message): seq<byte>
    requires Valid(m)
  {
    if HasPayload(m.kind) then Cbor.BigEndian(|m.payload.value|, 8) + m.payload.value else []
  }

  function IdPart(m: Message): seq<byte>
    requires Valid(m)
  {
    if HasBundleId(m.kind) then Cbor.BigEndian(m.bundleId, 8) else []
  }

  /** `aap_serialize` with the payload. */
  function Serialized(m: Message): (r: seq<byte>)
    requires Valid(m)
    ensures |r| == SerializedSize(m)
  {
    [0x10 + m.kind] + EidPart(m) + PayloadPart(m) + IdPart(m)
  }

  // ---- The parser

  datatype Stage = Type | EidLength | Eid | PayloadLength | Payload | BundleId

  datatype Status = Good | Done | Error

  /** struct aap_parser; `remaining` octets of the EID or the payload are still to
      come, `max` limits the payload if it is not zero. */
  datatype Parser = Parser(status: Status, stage: Stage, message: Message, remaining: nat, max: nat)

  const NO_MESSAGE := Message(0xFF, None, None, 0)

  function Start(max: nat): Parser {
    Parser(Good, Type, NO_MESSAGE, 0, max)
  }

  predicate Wellformed(p: Parser) {
    && (p.stage == Eid ==> p.message.eid.Some? && HasEid(p.message.kind) && (p.status == Good ==> p.remaining > 0))
    && (p.stage == Payload ==> p.message.payload.Some? && (p.status == Good ==> p.remaining > 0))
  }

  /** The stage functions: the parser afterwards and the octets taken. */
  function ParseType(p: Parser, b: byte): Parser {
    if b / 16 != 1 then p.(status := Error)
    else
      var kind := b % 16;
      var q := p.(message := p.message.(kind := kind));
      if kind == 0 || kind == 1 || kind == 8 then q.(status := Done)
      else if HasEid(kind) then q.(stage := EidLength)
      else if HasBundleId(kind) then q.(stage := BundleId)
      else q.(status := Error)
  }

  /** The EID and the payload are copied as far as the buffer goes. */
  function ParseEid(p: Parser, part: seq<byte>): Parser
    requires p.message.eid.Some? && |part| <= p.remaining
  {
    var q := p.(message := p.message.(eid := Some(p.message.eid.value + part)), remaining := p.remaining - |part|);
    if q.remaining > 0 then q
    else if HasPayload(p.message.kind) then q.(stage := PayloadLength)
    else q.(status := Done)
  }

  function ParsePayload(p: Parser, part: seq<byte>): Parser
    requires p.message.payload.Some? && |part| <= p.remaining
  {
    var q := p.(message := p.message.(payload := Some(p.message.payload.value + part)),
                remaining := p.remaining - |part|);
    if q.remaining > 0 then q else q.(status := Done)
  }

  function ParseEidLength(p: Parser, length: nat): Parser {
    p.(stage := Eid, remaining := length, message := p.message.(eid := Some([])),
       status := if length == 0 then Done else p.status)
  }

  function ParsePayloadLength(p: Parser, length: nat): Parser {
    if p.max != 0 && length > p.max then p.(status := Error, remaining := length)
    else p.(stage := Payload, remaining := length, message := p.message.(payload := Some([])),
            status := if length == 0 then Done else p.status)
  }

  function ParseBundleId(p: Parser, id: nat): Parser {
    p.(message := p.message.(bundleId := id), status := Done)
  }

  /** The octets a stage takes from a buffer, none if it needs more. */
  function Taken(p: Parser, buffer: seq<byte>): (n: nat)
    requires buffer != []
    ensures n <= |buffer|
  {
    match p.stage
    case Type => 1
    case EidLength => if |buffer| < 2 then 0 else 2
    case Eid => Min(|buffer|, p.remaining)
    case PayloadLength => if |buffer| < 8 then 0 else 8
    case Payload => Min(|buffer|, p.remaining)
    case BundleId => if |buffer| < 8 then 0 else 8
  }

  function Stepped(p: Parser, part: seq<byte>): (r: Parser)
    requires Wellformed(p) && p.status == Good && part != []
    requires (p.stage == Eid || p.stage == Payload) ==> |part| <= p.remaining
    requires HasEidStage(p)
    ensures Wellformed(r) && HasEidStage(r)
  {
    match p.stage
    case Type => ParseType(p, part[0])
    case EidLength => ParseEidLength(p, Cbor.FromBigEndian(part))
    case Eid => ParseEid(p, part)
    case PayloadLength => ParsePayloadLength(p, Cbor.FromBigEndian(part))
    case Payload => ParsePayload(p, part)
    case BundleId => ParseBundleId(p, Cbor.FromBigEndian(part))
  }

  /** An EID is only expected for types that have one. */
  predicate HasEidStage(p: Parser) {
    p.status == Good && p.stage == EidLength ==> HasEid(p.message.kind)
  }

  /** `aap_parser_read`: the parser after a buffer and what it left of it. */
  function Consume(p: Parser, buffer: seq<byte>): (r: (Parser, seq<byte>))
    requires Wellformed(p) && HasEidStage(p)
    ensures Wellformed(r.0) && HasEidStage(r.0)
    decreases |buffer|
  {
    if p.status != Good || buffer == [] then (p, buffer)
    else
      var n := Taken(p, buffer);
      if n == 0 then (p, buffer) else Consume(Stepped(p, buffer[..n]), buffer[n..])
  }
}
