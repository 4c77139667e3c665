/** The application agent protocol's serialiser and parser as they update buffers
    and fields. */
module AapCode {
  import opened Octets
  import opened Aap
  import Cbor

  // ---- Serialising

  /** `write_to_buffer`: the data at the position, which moves on. */
  method WriteToBuffer(buffer: array<byte>, position: nat, data: seq<byte>) returns (r: nat)
    requires position + |data| <= buffer.Length
    modifies buffer
    ensures r == position + |data| && buffer[..r] == old(buffer[..position]) + data
  {
    for k := 0 to |data|
      invariant buffer[..position + k] == old(buffer[..position]) + data[..k]
    {
      buffer[position + k] := data[k];
      assert buffer[..position + k + 1] == buffer[..position + k] + [data[k]];
      assert data[..k + 1] == data[..k] + [data[k]];
    }
    assert data[..|data|] == data;
    r := position + |data|;
  }

  /** `put_uint64`, octet by octet. */
  function PutUint64(v: nat): seq<byte> {
    [v / 0x100_0000_0000_0000 % 256, v / 0x1_0000_0000_0000 % 256, v / 0x100_0000_0000 % 256, v / 0x1_0000_0000 % 256,
     v / 0x100_0000 % 256, v / 0x1_0000 % 256, v / 0x100 % 256, v % 256]
  }

  lemma Two(v: nat)
    ensures Cbor.BigEndian(v, 2) == [v / 256 % 256, v % 256]
  {
    assert Cbor.BigEndian(v / 256, 1) == Cbor.BigEndian(v / 256 / 256, 0) + [v / 256 % 256];
  }

  lemma Four(v: nat)
    ensures Cbor.BigEndian(v, 4) == [v / 0x100_0000 % 256, v / 0x1_0000 % 256, v / 0x100 % 256, v % 256]
  {
    hide Cbor.BigEndian;
    Cbor2(v, 4);
    Two(v / 0x1_0000);
  }

  /** The two last octets apart. */
  lemma Cbor2(v: nat, k: nat)
    requires k >= 2
    ensures Cbor.BigEndian(v, k) == Cbor.BigEndian(v / 0x1_0000, k - 2) + [v / 0x100 % 256, v % 256]
  {
    assert v / 256 / 256 == v / 0x1_0000;
    assert Cbor.BigEndian(v / 256, k - 1) == Cbor.BigEndian(v / 256 / 256, k - 2) + [v / 256 % 256];
  }

  /** It is the big-endian form. */
  lemma PutUint64Means(v: nat)
    ensures PutUint64(v) == Cbor.BigEndian(v, 8)
  {
    hide Cbor.BigEndian;
    Cbor2(v, 8);
    Cbor2(v / 0x1_0000, 6);
    Four(v / 0x1_0000_0000);
    assert v / 0x1_0000 / 0x1_0000 == v / 0x1_0000_0000;
    Quotients(v);
  }

  lemma Quotients(v: nat)
    ensures v / 0x1_0000 / 0x100 == v / 0x100_0000
    ensures v / 0x1_0000_0000 / 0x100 == v / 0x100_0000_0000
    ensures v / 0x1_0000_0000 / 0x1_0000 == v / 0x1_0000_0000_0000
    ensures v / 0x1_0000_0000 / 0x100_0000 == v / 0x100_0000_0000_0000
  {
  }

  method WriteEid(buffer: array<byte>, position: nat, m: Message) returns (r: nat)
    requires Valid(m) && HasEid(m.kind) && position + |EidPart(m)| <= buffer.Length
    modifies buffer
    ensures r == position + |EidPart(m)| && buffer[..r] == old(buffer[..position]) + EidPart(m)
  {
    hide Cbor.BigEndian;
    var length := |m.eid.value|;
    Two(length);
    r := WriteToBuffer(buffer, position, [length / 256 % 256, length % 256]);
    if length > 0 {
      r := WriteToBuffer(buffer, r, m.eid.value);
    }
    assert buffer[..r] == old(buffer[..position]) + EidPart(m);
  }

  method WritePayload(buffer: array<byte>, position: nat, m: Message) returns (r: nat)
    requires Valid(m) && HasPayload(m.kind) && position + |PayloadPart(m)| <= buffer.Length
    modifies buffer
    ensures r == position + |PayloadPart(m)| && buffer[..r] == old(buffer[..position]) + PayloadPart(m)
  {
    hide Cbor.BigEndian, PutUint64;
    PutUint64Means(|m.payload.value|);
    r := WriteToBuffer(buffer, position, PutUint64(|m.payload.value|));
    if |m.payload.value| > 0 {
      r := WriteToBuffer(buffer, r, m.payload.value);
    }
    assert buffer[..r] == old(buffer[..position]) + PayloadPart(m);
  }

  /** `aap_serialize_into` with the payload. */
  method SerializeInto(buffer: array<byte>, m: Message) returns (position: nat)
    requires Valid(m) && buffer.Length >= SerializedSize(m)
    modifies buffer
    ensures position == SerializedSize(m) && buffer[..position] == Serialized(m)
  {
    hide Cbor.BigEndian, PutUint64;
    assert buffer[..0] == [];
    position := WriteToBuffer(buffer, 0, [0x10 + m.kind]);
    if HasEid(m.kind) {
      position := WriteEid(buffer, position, m);
    }
    assert buffer[..position] == [0x10 + m.kind] + EidPart(m);
    if HasPayload(m.kind) {
      position := WritePayload(buffer, position, m);
    }
    assert buffer[..position] == [0x10 + m.kind] + EidPart(m) + PayloadPart(m);
    if HasBundleId(m.kind) {
      PutUint64Means(m.bundleId);
      position := WriteToBuffer(buffer, position, PutUint64(m.bundleId));
    }
  }

  // ---- Parsing

  class Reader {
    var status: Status
    var stage: Stage
    var message: Message
    var remaining: nat
    const max: nat

    ghost function Model(): Parser
      reads this
    {
      Parser(status, stage, message, remaining, max)
    }

    ghost predicate Valid()
      reads this
    {
      Wellformed(Model()) && HasEidStage(Model())
    }

    constructor (max: nat)
      ensures Valid() && Model() == Start(max)
    {
      this.max := max;
      status, stage, message, remaining := Good, Type, NO_MESSAGE, 0;
    }

    /** The current stage function: how many octets it took. */
    method ParseStage(buffer: seq<byte>) returns (delta: nat)
      requires Valid() && status == Good && buffer != []
      modifies this
      ensures Valid() && delta == Taken(old(Model()), buffer)
      ensures Model() == if delta == 0 then old(Model()) else Stepped(old(Model()), buffer[..delta])
    {
      hide Cbor.FromBigEndian;
      if stage == Type {
        delta := 1;
        if buffer[0] / 16 != 1 {
          status := Error;
          return;
        }
        message := message.(kind := buffer[0] % 16);
        if message.kind == 0 || message.kind == 1 || message.kind == 8 {
          status := Done;
        } else if HasEid(message.kind) {
          stage := EidLength;
        } else if HasBundleId(message.kind) {
          stage := BundleId;
        } else {
          status := Error;
        }
      } else if stage == EidLength {
        if |buffer| < 2 {
          return 0;
        }
        delta := 2;
        stage, remaining, message := Eid, Cbor.FromBigEndian(buffer[..2]), message.(eid := Some([]));
        if remaining == 0 {
          status := Done;
        }
      } else if stage == Eid {
        delta := Min(|buffer|, remaining);
        message := message.(eid := Some(message.eid.value + buffer[..delta]));
        remaining := remaining - delta;
        if remaining == 0 {
          if HasPayload(message.kind) {
            stage := PayloadLength;
          } else {
            status := Done;
          }
        }
      } else if stage == PayloadLength {
        if |buffer| < 8 {
          return 0;
        }
        delta := 8;
        remaining := Cbor.FromBigEndian(buffer[..8]);
        if max != 0 && remaining > max {
          status := Error;
          return;
        }
        stage, message := Payload, message.(payload := Some([]));
        if remaining == 0 {
          status := Done;
        }
      } else if stage == Payload {
        delta := Min(|buffer|, remaining);
        message := message.(payload := Some(message.payload.value + buffer[..delta]));
        remaining := remaining - delta;
        if remaining == 0 {
          status := Done;
        }
      } else {
        if |buffer| < 8 {
          return 0;
        }
        delta := 8;
        message := message.(bundleId := Cbor.FromBigEndian(buffer[..8]));
        status := Done;
      }
    }

    /** `aap_parser_read` */
    method Read(buffer: seq<byte>) returns (consumed: nat)
      requires Valid()
      modifies this
      ensures Valid() && consumed <= |buffer|
      ensures Consume(old(Model()), buffer) == (Model(), buffer[consumed..])
    {
      hide Stepped, Taken;
      consumed := 0;
      assert buffer[0..] == buffer;
      while status == Good && consumed < |buffer|
        invariant Valid() && consumed <= |buffer|
        invariant Consume(old(Model()), buffer) == Consume(Model(), buffer[consumed..])
        decreases |buffer| - consumed
      {
        ghost var rest := buffer[consumed..];
        var delta := ParseStage(buffer[consumed..]);
        if delta == 0 {
          break;
        }
        assert rest[delta..] == buffer[consumed + delta..];
        consumed := consumed + delta;
      }
    }
  }
}
