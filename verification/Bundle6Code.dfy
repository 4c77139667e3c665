/** The BPv6 serialiser and parser of components/bundle6 as they update buffers
    and fields, proved against the octets and the parser machine. */
module Bundle6Code {
  import opened Octets
  import opened Bundle6
  import opened Bundle6Parser
  import Bundle6RoundTrip
  import Sdnv

  // ---- Serialising

  /** `bundle6_calculate_dict`: offsets and total length. */
  method CalculateDict(eids: seq<Option<Text>>) returns (offsets: seq<nat>, length: nat)
    ensures offsets == Offsets(eids) && length == |Dictionary(eids)|
  {
    hide Scheme, Ssp, Entry, EntryOffsets;
    offsets, length := [], 0;
    for i := 0 to |eids|
      invariant offsets == Offsets(eids[..i]) && length == |Dictionary(eids[..i])|
    {
      assert eids[..i + 1][..i] == eids[..i];
      offsets := offsets + EntryOffsets(eids[i], length);
      length := length + |Scheme(eids[i])| + |Ssp(eids[i])| + 2;
    }
    assert eids[..|eids|] == eids;
  }

  /** A part and its terminator at a position. */
  method WritePart(buf: array<byte>, at: nat, part: Text)
    requires at + |part| + 1 <= buf.Length
    modifies buf
    ensures buf[..at + |part| + 1] == old(buf[..at]) + part + [0]
  {
    for k := 0 to |part|
      invariant buf[..at + k] == old(buf[..at]) + part[..k]
    {
      buf[at + k] := part[k];
      assert buf[..at + k + 1] == buf[..at + k] + [part[k]];
      assert part[..k + 1] == part[..k] + [part[k]];
    }
    assert part[..|part|] == part;
    buf[at + |part|] := 0;
    assert buf[..at + |part| + 1] == buf[..at + |part|] + [0];
  }

  /** `bundle6_serialize_dictionary` */
  method SerializeDictionary(buf: array<byte>, eids: seq<Option<Text>>)
    requires buf.Length == |Dictionary(eids)|
    modifies buf
    ensures buf[..] == Dictionary(eids)
  {
    hide Scheme, Ssp;
    var at: nat := 0;
    for i := 0 to |eids|
      invariant at == |Dictionary(eids[..i])| <= buf.Length && buf[..at] == Dictionary(eids[..i])
    {
      assert eids[..i + 1][..i] == eids[..i];
      DictionaryGrows(eids, i);
      var scheme, ssp := Scheme(eids[i]), Ssp(eids[i]);
      WritePart(buf, at, scheme);
      WritePart(buf, at + |scheme| + 1, ssp);
      assert buf[..at + |scheme| + |ssp| + 2] == Dictionary(eids[..i]) + Entry(eids[i]);
      at := at + |scheme| + |ssp| + 2;
    }
    assert eids[..|eids|] == eids;
  }

  lemma {:induction false} DictionaryGrows(eids: seq<Option<Text>>, i: nat)
    requires i < |eids|
    ensures |Dictionary(eids[..i])| + |Entry(eids[i])| <= |Dictionary(eids)|
    decreases |eids|
  {
    hide Entry, Dictionary;
    var n := |eids| - 1;
    Bundle6RoundTrip.DictionaryLast(eids);
    if i < n {
      DictionaryGrows(eids[..n], i);
      assert eids[..n][..i] == eids[..i];
    }
  }

  method SerializeNumber(buffer: array<byte>, w: Sdnv.Width, value: nat, out: seq<byte>) returns (r: seq<byte>)
    requires buffer.Length >= 10 && value < Sdnv.Limit(w)
    modifies buffer
    ensures r == out + Sdnv.Encode(value)
  {
    hide Sdnv.Encode, Sdnv.GroupCount;
    var n := Sdnv.Write(buffer, w, value);
    r := out + buffer[..n];
  }

  method SerializeNumbers(buffer: array<byte>, w: Sdnv.Width, values: seq<nat>, out: seq<byte>) returns (r: seq<byte>)
    requires buffer.Length >= 10 && forall i :: 0 <= i < |values| ==> values[i] < Sdnv.Limit(w)
    modifies buffer
    ensures r == out + Sdnvs(values)
  {
    hide Sdnv.Encode, Sdnvs;
    r := out;
    var i := 0;
    assert values[0..] == values;
    while i < |values|
      invariant 0 <= i <= |values| && r + Sdnvs(values[i..]) == out + Sdnvs(values)
    {
      SdnvsAt(values, i, r);
      r := SerializeNumber(buffer, w, values[i], r);
      i := i + 1;
    }
    SdnvsAt(values, i, r);
  }

  lemma SdnvsAt(values: seq<nat>, i: nat, r: seq<byte>)
    requires i <= |values|
    ensures i == |values| ==> r + Sdnvs(values[i..]) == r
    ensures i < |values| ==> r + Sdnvs(values[i..]) == r + Sdnv.Encode(values[i]) + Sdnvs(values[i + 1..])
  {
    if i < |values| {
      assert values[i..][0] == values[i] && values[i..][1..] == values[i + 1..];
    }
  }

  method SerializeBlock(buffer: array<byte>, b: Block, out: seq<byte>) returns (r: seq<byte>)
    requires buffer.Length >= 10 && BlockInRange(b)
    modifies buffer
    ensures r == out + BlockWire(b)
  {
    hide Sdnvs, HasBit;
    r := out + [b.kind];
    r := SerializeNumbers(buffer, Sdnv.U32, [b.flags, b.length], r);
    r := r + b.data;
    assert r == out + BlockWire(b);
  }

  method SerializePrimary(buffer: array<byte>, b: Bundle, start: seq<byte>) returns (out: seq<byte>)
    requires InRange(b) && buffer.Length >= 10
    modifies buffer
    ensures out == start + PrimaryRest(b)
  {
    hide Sdnvs, Dictionary, Offsets, IsFragment, IsString, BlockInRange, HasBit, Truncated;
    var offsets, length := CalculateDict(Eids(b));
    var dict := new byte[length](i => 0);
    SerializeDictionary(dict, Eids(b));
    out := SerializeNumbers(buffer, Sdnv.U16, Truncated(offsets), start);
    out := SerializeNumbers(buffer, Sdnv.U64, [b.creationMs / 1000, b.sequence, b.lifetimeMs / 1000], out);
    out := SerializeNumbers(buffer, Sdnv.U16, [length % TWO_16], out);
    NumbersJoined(b, start);
    ghost var numbers := Sdnvs(HeaderNumbers(b));
    out := out + dict[..];
    assert out == start + numbers + Dictionary(Eids(b));
    if IsFragment(b.flags) {
      out := SerializeNumbers(buffer, Sdnv.U32, [b.fragmentOffset, b.totalAduLength], out);
    }
    PrimaryJoined(b, start);
  }

  lemma PrimaryJoined(b: Bundle, start: seq<byte>)
    ensures start + Sdnvs(HeaderNumbers(b)) + Dictionary(Eids(b)) + Sdnvs(FragmentNumbers(b)) == start + PrimaryRest(b)
    ensures !IsFragment(b.flags) ==>
              start + Sdnvs(HeaderNumbers(b)) + Dictionary(Eids(b)) == start + PrimaryRest(b)
  {
    hide HeaderNumbers, Dictionary, IsFragment;
    var x, y, z := Sdnvs(HeaderNumbers(b)), Dictionary(Eids(b)), Sdnvs(FragmentNumbers(b));
    assert start + x + y + z == start + (x + (y + z));
  }

  /** `bundle6_serialize`, with what it hands to the write callback as `out`. */
  method Serialize(b: Bundle) returns (out: seq<byte>)
    requires InRange(b)
    ensures out == Wire(b)
  {
    hide Sdnvs, PrimaryRest, ProtocolFlags, IsString, BlockWire, HasBit;
    var buffer := new byte[10](i => 0);
    out := SerializeNumbers(buffer, Sdnv.U32, [ProtocolFlags(b.flags), b.primaryLength], [b.version]);
    out := SerializePrimary(buffer, b, out);
    ghost var header := out;
    var i := 0;
    assert b.blocks[..0] == [];
    while i < |b.blocks|
      invariant 0 <= i <= |b.blocks| && out == header + BlocksWire(b.blocks[..i])
    {
      assert b.blocks[..i + 1][..i] == b.blocks[..i];
      out := SerializeBlock(buffer, b.blocks[i], out);
      i := i + 1;
    }
    assert b.blocks[..i] == b.blocks;
  }

  lemma NumbersJoined(b: Bundle, start: seq<byte>)
    ensures start + Sdnvs(Truncated(Offsets(Eids(b)))) + Sdnvs([b.creationMs / 1000, b.sequence, b.lifetimeMs / 1000])
            + Sdnvs([|Dictionary(Eids(b))| % TWO_16])
            == start + Sdnvs(HeaderNumbers(b))
  {
    hide Sdnvs, Offsets, Dictionary;
    var offsets, times, length := Truncated(Offsets(Eids(b))), [b.creationMs / 1000, b.sequence, b.lifetimeMs / 1000],
        [|Dictionary(Eids(b))| % TWO_16];
    Bundle6RoundTrip.SdnvsAppend(offsets, times + length);
    Bundle6RoundTrip.SdnvsAppend(times, length);
    assert HeaderNumbers(b) == offsets + (times + length);
  }

  // ---- Parsing

  class Machine {
    var status: Status
    var stage: Stage
    var inPrimary: bool
    var primaryRemaining: nat
    var sdnv: Sdnv.State
    var bulk: bool
    var nextBytes: nat
    var sent: Option<Bundle>
    var content: Content

    ghost function Model(): Parser
      reads this
    {
      Parser(status, stage, inPrimary, primaryRemaining, sdnv, bulk, nextBytes, sent, content)
    }

    ghost predicate Valid()
      reads this
    {
      Wellformed(Model())
    }

    /** `bundle6_parser_init` */
    constructor (bundleSize: nat)
      ensures Valid() && Model() == Start(bundleSize)
    {
      status, stage, inPrimary, primaryRemaining := Good, Version, true, 0;
      sdnv, bulk, nextBytes, sent := Sdnv.FRESH, false, 0, None;
      content := Content(EMPTY_BUNDLE, [0, 0, 0, 0, 0, 0, 0, 0], (0, 0), 0, [], 0, 0, bundleSize, false, false);
    }

    /** `bundle6_parser_next` */
    method Next(next: Stage)
      requires Valid() && !bulk && ContentFor(next, content)
      modifies this
      ensures Valid() && Model() == Enter(old(Model()), next)
    {
      hide EnterDictionary, EnterData;
      if next == Dict {
        BeginDictionary();
      } else if next == BlockData {
        BeginData();
      } else if next == BlockType {
        inPrimary, stage := false, next;
      } else if next == Finished {
        stage, status := next, Done;
        if content.payload {
          sent := Some(content.bundle);
        } else {
          sent := None;
        }
      } else {
        sdnv := Sdnv.FRESH;
        if next == EidRef(0) {
          primaryRemaining := content.bundle.primaryLength;
        }
        content := Converted(content, next);
        stage := next;
      }
    }

    method BeginDictionary()
      requires Valid() && !bulk
      modifies this
      ensures Valid() && Model() == EnterDictionary(old(Model()))
    {
      hide WithEids, IsFragment;
      content := content.(index := 0);
      if content.dictLength == 0 {
        WithEidsKeeps(content);
        content := WithEids(content);
        if IsFragment(content.bundle.flags) {
          stage := FragmentOffset;
        } else {
          stage, inPrimary := BlockType, false;
        }
      } else {
        var size := (content.size + content.dictLength + 1) % TWO_32;
        content := content.(curRemaining := content.dictLength, size := size, dict := []);
        if size > MAX_SIZE {
          status := Error;
        }
        stage := Dict;
      }
    }

    method BeginData()
      requires Valid() && !bulk && content.bundle.blocks != []
      modifies this
      ensures Valid() && Model() == EnterData(old(Model()))
    {
      nextBytes := LastBlockOf(content).length;
      var size := (content.size + nextBytes) % TWO_32;
      content := content.(index := 0, curRemaining := 0, size := size);
      if size > MAX_SIZE {
        status := Error;
      } else {
        bulk := true;
      }
      stage := BlockData;
    }

    /** The stages that read an SDNV. */
    method ReadNumber(w: Sdnv.Width, b: byte)
      requires Valid() && !bulk && WidthOf(stage) == Some(w)
      modifies this
      ensures Valid() && Model() == SdnvByte(old(Model()), w, b)
    {
      hide Sdnv.Read, Load, Store, Noted, Following, Enter;
      var (now, value) := Sdnv.Read(w, sdnv, Load(stage, content), b);
      sdnv := now;
      content := Store(stage, content, value);
      if sdnv.status == Sdnv.Failed {
        status := Error;
      } else if sdnv.status == Sdnv.Done {
        var noted := Noted(stage, content);
        if noted == None {
          status := Error;
          return;
        }
        content := noted.value;
        Next(Following(stage, content));
      }
    }

    /** `bundle6_parser_read_byte` */
    method Byte(b: byte)
      requires Valid() && !bulk
      modifies this
      ensures Valid() && Model() == ReadByte(old(Model()), b)
    {
      hide SdnvByte, Enter, WithEids, IsFragment, EidsRead;
      if inPrimary {
        if LengthKnown(stage) && primaryRemaining == 0 {
          status := Error;
          return;
        }
        if primaryRemaining != 0 {
          primaryRemaining := primaryRemaining - 1;
        }
      }
      if WidthOf(stage).Some? {
        ReadNumber(WidthOf(stage).value, b);
        return;
      }
      if stage == Version {
        content := content.(bundle := content.bundle.(version := b));
        Next(ProcFlags);
      } else if stage == Dict {
        DictionaryByte(b);
      } else if stage == BlockType {
        content := BeginBlock(content, b);
        Next(BlockFlags);
      } else if stage == BlockData && content.curRemaining == 0 {
        Next(if content.lastBlock then Finished else BlockType);
      } else {
        status := Error;
      }
    }

    method DictionaryByte(b: byte)
      requires Valid() && !bulk && stage == Dict
      modifies this
      ensures Valid() && Model() == DictByte(old(Model()), b)
    {
      hide Enter, EidAt, IsFragment;
      content := content.(curRemaining := (content.curRemaining + TWO_32 - 1) % TWO_32, dict := content.dict + [b],
                          index := content.index + 1);
      if content.curRemaining == 0 {
        var next := AfterPrimaryHeader(content.bundle);
        content := WithEids(content);
        if !EidsRead(content.bundle) {
          status := Error;
        } else {
          Next(next);
        }
      }
    }

    /** A bulk read that was done outside, or in `Read`. */
    method BulkRead(data: seq<byte>)
      requires Valid() && bulk
      modifies this
      ensures Valid() && Model() == BulkDone(old(Model()), data)
    {
      hide ReadByte;
      content := WithLastBlock(content, LastBlockOf(content).(data := data));
      bulk := false;
      Byte(0);
    }

    /** `bundle6_parser_read`: how much of the buffer was consumed. */
    method Read(buffer: seq<byte>) returns (i: nat)
      requires Valid()
      modifies this
      ensures Valid() && i <= |buffer|
      ensures Consume(old(Model()), buffer) == (Model(), buffer[i..])
    {
      hide ReadByte, BulkDone;
      i := 0;
      assert buffer[0..] == buffer;
      while i < |buffer| && status == Good
        invariant Valid() && i <= |buffer|
        invariant Consume(old(Model()), buffer) == Consume(Model(), buffer[i..])
        decreases |buffer| - i, if bulk then 1 else 0
      {
        if bulk {
          if i + nextBytes > |buffer| {
            break;
          }
          var n := nextBytes;
          assert buffer[i..][..n] == buffer[i..i + n] && buffer[i..][n..] == buffer[i + n..];
          BulkRead(buffer[i..i + n]);
          i := i + n;
        } else {
          assert buffer[i..][0] == buffer[i] && buffer[i..][1..] == buffer[i + 1..];
          Byte(buffer[i]);
          i := i + 1;
        }
      }
    }
  }

  lemma WithEidsKeeps(c: Content)
    requires |c.refs| == 8
    ensures WithEids(c).bundle.flags == c.bundle.flags && |WithEids(c).refs| == 8
    ensures WithEids(c).bundle.blocks == c.bundle.blocks
  {
  }
}
