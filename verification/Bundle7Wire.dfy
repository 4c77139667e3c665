/** The BPv7 wire format as components/bundle7/serializer.c emits it, and its
    predicted size. */
module Bundle7Wire {
  import opened Octets
  import opened Cbor
  import opened Bundle7
  import Eid
  import Fragmentation
  import RoutePlanning
  import CrcDivision
  import Crc
  import CrcStream
  import CrcTables

  const BUFFER_SIZE := 128

  // ---- Fields in their C types

  predicate BlockInRange(b: Block) {
    b.kind < TWO_32 && b.number < 256 && b.flags < TWO_32 && |b.data| < TWO_32
  }

  predicate InRange(d: BundleData) {
    && d.header.version < 256 && d.procFlags < TWO_32
    && d.header.creationMs < TWO_64 && d.header.sequence < TWO_64 && d.header.lifetimeMs < TWO_64
    && d.fragmentOffset < TWO_32 && d.totalAduLength < TWO_32
    && forall i :: 0 <= i < |d.blocks| ==> BlockInRange(d.blocks[i])
  }

  /** `bundle7_filter_protocol_proc_flags`: keeps the BPv7 flags, which are bits
      0 to 2, 5, 6, 14 and 16 to 18. */
  function FilterFlags(flags: nat): (r: nat)
    ensures r <= flags
  {
    var from3 := flags / 8;
    var from5 := from3 / 4;
    var from7 := from5 / 4;
    var from14 := from7 / 0x80;
    var from16 := from14 / 4;
    flags % 8 + from5 % 4 * 0x20 + from14 % 2 * 0x4000 + from16 % 8 * 0x1_0000
  }

  // ---- The octets

  /** Unsigned integers one after the other. */
  function Uints(ns: seq<nat>): seq<byte>
    requires forall i :: 0 <= i < |ns| ==> ns[i] < TWO_64
  {
    if ns == [] then [] else Head(0, ns[0]) + Uints(ns[1..])
  }

  datatype EidItem = DtnNone | Dtn(ssp: seq<byte>) | Ipn(node: nat, service: nat)

  function CharOctets(s: string): (r: seq<byte>)
    ensures |r| == |s|
  {
    seq(|s|, i requires 0 <= i < |s| => s[i] as int % 256)
  }

  /** `bundle7_eid_serialize_cbor`: what an EID is written as, if it can be. */
  function EidItemOf(eid: string): Option<EidItem> {
    if eid == "" || eid == "dtn:none" then Some(DtnNone)
    else if Eid.HasPrefix(eid, "dtn:") then Some(Dtn(CharOctets(eid[4..])))
    else if |eid| > 4 && Eid.HasPrefix(eid, "ipn:") then
      match Eid.ParseIpn(eid)
      case None => None
      case Some((node, service)) => Some(Ipn(node, service))
    else None
  }

  predicate ItemInRange(e: EidItem) {
    match e
    case DtnNone => true
    case Dtn(ssp) => |ssp| < TWO_64
    case Ipn(node, service) => node < TWO_64 && service < TWO_64
  }

  function EidOctets(e: EidItem): seq<byte>
    requires ItemInRange(e)
  {
    match e
    case DtnNone => Head(4, 2) + Uints([1, 0])
    case Dtn(ssp) => Head(4, 2) + Uints([1]) + Head(3, |ssp|) + ssp
    case Ipn(node, service) => Head(4, 2) + Uints([2]) + Head(4, 2) + Uints([node, service])
  }

  /** `bundle7_eid_serialize` into the serialiser's buffer. */
  function EidWire(eid: string): (r: Option<seq<byte>>)
    ensures r.Some? ==> 0 < |r.value| <= BUFFER_SIZE
  {
    match EidItemOf(eid)
    case None => None
    case Some(e) =>
      if ItemInRange(e) && |EidOctets(e)| <= BUFFER_SIZE then Some(EidOctets(e)) else None
  }

  predicate Writable(d: BundleData) {
    && d.header.version == 7
    && EidWire(d.header.destination).Some? && EidWire(d.header.source).Some? && EidWire(d.header.reportTo).Some?
  }

  function PrimaryCount(d: BundleData): nat {
    8 + (if d.header.crc == CrcNone then 0 else 1) + (if IsFragment(d.procFlags) then 2 else 0)
  }

  function PrimaryStart(d: BundleData): seq<byte>
    requires InRange(d)
  {
    Head(4, PrimaryCount(d)) + Uints([7, FilterFlags(d.procFlags), CrcCode(d.header.crc)])
  }

  function PrimaryTimes(d: BundleData): seq<byte>
    requires InRange(d)
  {
    Head(4, 2) + Uints([d.header.creationMs, d.header.sequence]) + Uints([d.header.lifetimeMs])
    + (if IsFragment(d.procFlags) then Uints([d.fragmentOffset, d.totalAduLength]) else [])
  }

  /** The primary block up to its CRC field. */
  function PrimaryBody(d: BundleData): seq<byte>
    requires InRange(d) && Writable(d)
  {
    PrimaryStart(d) + EidWire(d.header.destination).value + EidWire(d.header.source).value
    + EidWire(d.header.reportTo).value + PrimaryTimes(d)
  }

  /** A canonical block up to its CRC field. */
  function BlockBody(b: Block): seq<byte>
    requires BlockInRange(b)
  {
    Head(4, if b.crc == CrcNone then 5 else 6)
    + Uints([b.kind, b.number, ProtocolFlags(b.flags), CrcCode(b.crc)])
    + Head(2, |b.data|) + b.data
  }

  /** The octets of a checksum in network byte order. */
  function NetworkOrder(bits: CrcDivision.Bits, octets: nat): (r: seq<byte>)
    requires |bits| == 8 * octets
    ensures |r| == octets
  {
    if octets == 0 then []
    else [Crc.Index(bits[8 * (octets - 1)..])] + NetworkOrder(bits[..8 * (octets - 1)], octets - 1)
  }

  /** The CRC field after `body`: the checksum of the block with an all-zero
      checksum in its place. */
  function CrcField(c: CrcType, body: seq<byte>): (r: seq<byte>)
    ensures |r| == CrcFieldSize(c)
  {
    match c
    case CrcNone => []
    case Crc16 => [0x42] + NetworkOrder(CrcStream.CrcOf(CrcTables.X25, body + [0x42, 0, 0]), 2)
    case Crc32 => [0x44] + NetworkOrder(CrcStream.CrcOf(CrcTables.Crc32c, body + [0x44, 0, 0, 0, 0]), 4)
  }

  function PrimaryWire(d: BundleData): seq<byte>
    requires InRange(d) && Writable(d)
  {
    PrimaryBody(d) + CrcField(d.header.crc, PrimaryBody(d))
  }

  function BlockWire(b: Block): seq<byte>
    requires BlockInRange(b)
  {
    BlockBody(b) + CrcField(b.crc, BlockBody(b))
  }

  function BlocksWire(blocks: seq<Block>): seq<byte>
    requires forall i :: 0 <= i < |blocks| ==> BlockInRange(blocks[i])
  {
    if blocks == [] then []
    else BlocksWire(blocks[..|blocks| - 1]) + BlockWire(blocks[|blocks| - 1])
  }

  function Wire(d: BundleData): seq<byte>
    requires InRange(d) && Writable(d)
  {
    [0x9f] + PrimaryWire(d) + BlocksWire(d.blocks) + [0xff]
  }

  // ---- The predicted size

  lemma UintsSize1(a: nat)
    requires a < TWO_64
    ensures |Uints([a])| == UintSize(a)
  {
    HeadSize(0, a);
    assert [a][1..] == [];
  }

  lemma UintsSize2(a: nat, b: nat)
    requires a < TWO_64 && b < TWO_64
    ensures |Uints([a, b])| == UintSize(a) + UintSize(b)
  {
    HeadSize(0, a);
    assert [a, b][1..] == [b];
    UintsSize1(b);
  }

  lemma UintsSize3(a: nat, b: nat, c: nat)
    requires a < TWO_64 && b < TWO_64 && c < TWO_64
    ensures |Uints([a, b, c])| == UintSize(a) + UintSize(b) + UintSize(c)
  {
    HeadSize(0, a);
    assert [a, b, c][1..] == [b, c];
    UintsSize2(b, c);
  }

  lemma UintsSize4(a: nat, b: nat, c: nat, e: nat)
    requires a < TWO_64 && b < TWO_64 && c < TWO_64 && e < TWO_64
    ensures |Uints([a, b, c, e])| == UintSize(a) + UintSize(b) + UintSize(c) + UintSize(e)
  {
    HeadSize(0, a);
    assert [a, b, c, e][1..] == [b, c, e];
    UintsSize3(b, c, e);
  }

  lemma EidOctetsSize(e: EidItem)
    requires ItemInRange(e)
    ensures |EidOctets(e)| == match e
              case DtnNone => 3
              case Dtn(ssp) => 2 + UintSize(|ssp|) + |ssp|
              case Ipn(node, service) => 3 + UintSize(node) + UintSize(service)
  {
    hide Uints;
    match e
    case DtnNone =>
      UintsSize2(1, 0);
    case Dtn(ssp) =>
      UintsSize1(1);
      HeadSize(3, |ssp|);
    case Ipn(node, service) =>
      UintsSize1(2);
      UintsSize2(node, service);
  }

  lemma EidSizePredicted(eid: string)
    requires EidWire(eid).Some?
    ensures |EidWire(eid).value| == EidSize(eid)
  {
    hide EidOctets, Eid.ParseIpn;
    EidOctetsSize(EidItemOf(eid).value);
  }

  lemma PrimarySizePredicted(d: BundleData)
    requires InRange(d) && Writable(d)
    ensures |PrimaryWire(d)| == PrimarySize(d) - UintSize(d.procFlags) + UintSize(FilterFlags(d.procFlags))
  {
    hide Uints, EidWire, EidSize, CrcField, FilterFlags;
    EidSizePredicted(d.header.destination);
    EidSizePredicted(d.header.source);
    EidSizePredicted(d.header.reportTo);
    UintsSize3(7, FilterFlags(d.procFlags), CrcCode(d.header.crc));
    UintsSize2(d.header.creationMs, d.header.sequence);
    UintsSize1(d.header.lifetimeMs);
    UintsSize2(d.fragmentOffset, d.totalAduLength);
  }

  lemma BlockSizePredicted(b: Block)
    requires BlockInRange(b)
    ensures |BlockWire(b)| == BlockSize(b)
  {
    hide Uints, CrcField, ProtocolFlags;
    UintsSize4(b.kind, b.number, ProtocolFlags(b.flags), CrcCode(b.crc));
    HeadSize(2, |b.data|);
  }

  lemma {:induction false} BlocksSizePredicted(blocks: seq<Block>)
    requires forall i :: 0 <= i < |blocks| ==> BlockInRange(blocks[i])
    ensures |BlocksWire(blocks)| == Total(blocks, BlockSize)
  {
    hide BlockWire, BlockSize;
    if blocks != [] {
      BlocksSizePredicted(blocks[..|blocks| - 1]);
      BlockSizePredicted(blocks[|blocks| - 1]);
    }
  }

  /** The predicted size of a bundle whose primary block length is up to date is
      exact if and only if leaving out flags that are not BPv7's does not shorten
      the flags field; it is never too small. */
  lemma SizePredicted(d: BundleData)
    requires InRange(d) && Writable(d) && d.primaryLength == PrimarySize(d)
    ensures |Wire(d)| == SerializedSize(d) - UintSize(d.procFlags) + UintSize(FilterFlags(d.procFlags))
    ensures |Wire(d)| == SerializedSize(d) <==> UintSize(FilterFlags(d.procFlags)) == UintSize(d.procFlags)
    ensures |Wire(d)| <= SerializedSize(d)
    ensures FilterFlags(d.procFlags) == d.procFlags ==> |Wire(d)| == SerializedSize(d)
  {
    hide PrimaryWire, PrimarySize, BlocksWire, FilterFlags, Writable;
    PrimarySizePredicted(d);
    BlocksSizePredicted(d.blocks);
    UintSizeMonotone(FilterFlags(d.procFlags), d.procFlags);
  }

  /** A bundle with a flag that is not BPv7's. */
  const FLAGGED := BundleData(Header(7, CrcNone, "dtn:none", "dtn:none", "dtn:none", 0, 0, 0), 0x80, 0, 0, 18,
                              [Block(PAYLOAD, 1, 0, CrcNone, [])], 0)

  /** It is one octet shorter than predicted. */
  lemma FlagsShorten()
    ensures WellFormed(FLAGGED) && InRange(FLAGGED) && Writable(FLAGGED)
    ensures |Wire(FLAGGED)| == SerializedSize(FLAGGED) - 1
  {
    hide EidWire, Wire, SerializedSize, EidSize;
    NoneWritable();
    SizePredicted(FLAGGED);
  }

  lemma NoneWritable()
    ensures EidWire("dtn:none").Some? && EidSize("dtn:none") == 3
  {
    hide Uints;
    EidOctetsSize(DtnNone);
  }

  // ---- Fragments on the wire

  lemma {:induction false} ReplicatedInRange(blocks: seq<Block>)
    requires forall i :: 0 <= i < |blocks| ==> BlockInRange(blocks[i])
    ensures forall i :: 0 <= i < |Fragmentation.Replicated(blocks)| ==>
              BlockInRange(Fragmentation.Replicated(blocks)[i])
  {
    hide BlockInRange;
    if blocks != [] {
      ReplicatedInRange(blocks[..|blocks| - 1]);
    }
  }

  lemma FlagInRange(procFlags: nat)
    requires procFlags < TWO_32
    ensures SetFragmentFlag(procFlags) < TWO_32
  {
  }

  /** Both parts of a cut can be written where the whole can. */
  lemma CutInRange(w: BundleData, firstMax: nat)
    requires InRange(w) && Writable(w) && w.payload < |w.blocks|
    ensures match Fragmentation.FragmentBundleSpec(w, firstMax)
            case Cut(first, rest) => InRange(first) && Writable(first) && InRange(rest) && Writable(rest)
            case _ => true
  {
    hide EidWire, PrimarySize, FirstMinSize, Fragmentation.Replicated;
    FlagInRange(w.procFlags);
    ReplicatedInRange(w.blocks);
    assert BlockInRange(w.blocks[w.payload]);
  }

  lemma {:induction false} SplitInRange(orig: BundleData, w: BundleData, shares: seq<nat>, f: nat)
    requires orig.payload < |orig.blocks| && w.payload < |w.blocks| && f < |shares|
    requires InRange(w) && Writable(w)
    ensures var s := RoutePlanning.SplitFrom(orig, w, shares, f);
      s.Some? ==> forall i :: 0 <= i < |s.value| ==> InRange(s.value[i]) && Writable(s.value[i])
    decreases |shares| - f
  {
    hide InRange, Writable, Fragmentation.FragmentBundleSpec, RoutePlanning.Allowance;
    if f < |shares| - 1 {
      var firstMax := RoutePlanning.Allowance(orig, shares, f);
      CutInRange(w, firstMax);
      match Fragmentation.FragmentBundleSpec(w, firstMax)
      case Cut(first, rest) =>
        SplitInRange(orig, rest, shares, f + 1);
      case _ =>
    }
  }

  lemma FirstInRange(d: BundleData)
    requires InRange(d) && Writable(d) && WellFormed(d)
    ensures InRange(Fragmentation.FirstFragment(d)) && Writable(Fragmentation.FirstFragment(d))
    ensures Fragmentation.FirstFragment(d).payload < |Fragmentation.FirstFragment(d).blocks|
  {
    hide EidWire, PrimarySize;
    FlagInRange(d.procFlags);
    assert BlockInRange(d.blocks[d.payload]);
  }

  /** Every fragment of every plan of two or more can be written, and is within the
      maximum size on the wire. */
  lemma FragmentsOnWireWithinBudget(d: BundleData, maxFragment: nat, minPayload: nat, shares: seq<nat>)
    requires InRange(d) && Writable(d) && WellFormed(d) && maxFragment <= INT32_MAX
    requires RoutePlanning.Plan(RoutePlanning.BundleLimits(d, maxFragment, minPayload), |Payload(d)|) == Some(shares)
    requires |shares| >= 2
    ensures var s := RoutePlanning.SplitFrom(d, Fragmentation.FirstFragment(d), shares, 0);
      && s.Some? && |s.value| >= 2
      && forall i :: 0 <= i < |s.value| ==>
           InRange(s.value[i]) && Writable(s.value[i]) && |Wire(s.value[i])| <= maxFragment
  {
    hide InRange, Writable, WellFormed, Wire, SerializedSize, FirstMinSize, RoutePlanning.Plan, RoutePlanning.SplitFrom,
         Fragmentation.FirstFragment, RoutePlanning.Partition, RoutePlanning.BundleLimits;
    PayloadPresent(d);
    FirstInRange(d);
    RoutePlanning.FragmentsWithinBudget(d, maxFragment, minPayload, shares);
    SplitInRange(d, Fragmentation.FirstFragment(d), shares, 0);
    var s := RoutePlanning.SplitFrom(d, Fragmentation.FirstFragment(d), shares, 0).value;
    forall i | 0 <= i < |s| ensures |Wire(s[i])| <= maxFragment {
      WellFormedLength(s[i]);
      SizePredicted(s[i]);
    }
  }

  lemma WellFormedLength(d: BundleData)
    requires WellFormed(d)
    ensures d.primaryLength == PrimarySize(d)
  {
  }

  // ---- The CRC of each block

  /** The check of section 4.2.1 of RFC 9171: the field holds the checksum of
      the block with the checksum's octets replaced by zeros. */
  predicate CrcHolds(c: CrcType, block: seq<byte>) {
    match c
    case CrcNone => true
    case Crc16 =>
      |block| >= 3 &&
      block[|block| - 2..] == NetworkOrder(CrcStream.CrcOf(CrcTables.X25, block[..|block| - 2] + [0, 0]), 2)
    case Crc32 =>
      |block| >= 5 &&
      block[|block| - 4..] == NetworkOrder(CrcStream.CrcOf(CrcTables.Crc32c, block[..|block| - 4] + [0, 0, 0, 0]), 4)
  }

  lemma WrittenCrcHolds(c: CrcType, body: seq<byte>)
    ensures CrcHolds(c, body + CrcField(c, body))
  {
    hide NetworkOrder, CrcStream.CrcOf;
    var block := body + CrcField(c, body);
    match c
    case CrcNone =>
    case Crc16 =>
      assert block[..|block| - 2] + [0, 0] == body + [0x42, 0, 0];
      assert block[|block| - 2..] == CrcField(c, body)[1..];
    case Crc32 =>
      assert block[..|block| - 4] + [0, 0, 0, 0] == body + [0x44, 0, 0, 0, 0];
      assert block[|block| - 4..] == CrcField(c, body)[1..];
  }

  // ---- Writing

  /** The stream `init_crc` sets up for a CRC type has been fed `fed`; there is
      none without a CRC. */
  ghost predicate Streaming(crc: CrcStream.Stream?, c: CrcType, fed: seq<byte>)
    reads crc
  {
    && (crc == null <==> c == CrcNone)
    && (crc != null ==> crc.Valid() && crc.fed == fed)
    && (c == Crc16 ==> crc.version == CrcTables.X25)
    && (c == Crc32 ==> crc.version == CrcTables.Crc32c)
  }

  method InitCrc(c: CrcType) returns (crc: CrcStream.Stream?)
    ensures Streaming(crc, c, []) && fresh({crc} - {null})
  {
    hide Crc.IsReflectedTable, CrcTables.Polynomial;
    match c
    case CrcNone => crc := null;
    case Crc16 => crc := new CrcStream.Stream(CrcTables.X25);
    case Crc32 => crc := new CrcStream.Stream(CrcTables.Crc32c);
  }

  method FeedCrc(crc: CrcStream.Stream?, c: CrcType, data: seq<byte>, ghost fed: seq<byte>)
    requires Streaming(crc, c, fed)
    modifies crc
    ensures Streaming(crc, c, fed + data)
  {
    if c != CrcNone {
      crc.FeedBytes(data);
    }
  }

  /** `write_crc` */
  method WriteCrc(c: CrcType, crc: CrcStream.Stream, ghost fed: seq<byte>) returns (field: seq<byte>)
    requires c != CrcNone && Streaming(crc, c, fed)
    modifies crc
    ensures field == CrcField(c, fed)
  {
    hide CrcStream.CrcOf, NetworkOrder, CrcDivision.Divide, Crc.IsReflectedTable, CrcTables.Polynomial;
    if c == Crc32 {
      crc.FeedBytes([0x44, 0, 0, 0, 0]);
      crc.FeedEof();
      assert crc.checksum == CrcStream.CrcOf(crc.version, crc.fed);
      field := [0x44] + NetworkOrder(crc.checksum, 4);
    } else {
      crc.FeedBytes([0x42, 0, 0]);
      crc.FeedEof();
      assert crc.checksum[..16] == CrcStream.CrcOf(crc.version, crc.fed);
      field := [0x42] + NetworkOrder(crc.checksum[..16], 2);
    }
  }

  method SerializeBlock(b: Block) returns (out: seq<byte>)
    requires BlockInRange(b)
    ensures out == BlockWire(b)
  {
    hide CrcField, Uints, ProtocolFlags, CrcStream.Stream.Valid, Head;
    var crc := InitCrc(b.crc);
    out := Head(4, if b.crc == CrcNone then 5 else 6)
      + Uints([b.kind, b.number, ProtocolFlags(b.flags), CrcCode(b.crc)]) + Head(2, |b.data|);
    FeedCrc(crc, b.crc, out, []);
    assert [] + out == out;
    FeedCrc(crc, b.crc, b.data, out);
    out := out + b.data;
    assert out == BlockBody(b);
    if b.crc != CrcNone {
      var field := WriteCrc(b.crc, crc, out);
      out := out + field;
    }
  }

  /** `bundle7_serialize`, with what it hands to the write callback as `out`. */
  method Serialize(d: BundleData) returns (ok: bool, out: seq<byte>)
    requires InRange(d)
    ensures ok <==> Writable(d)
    ensures ok ==> out == Wire(d)
  {
    hide EidWire, BlockWire, CrcField, PrimaryStart, PrimaryTimes, CrcStream.Stream.Valid;
    out := [];
    if d.header.version != 7 {
      return false, out;
    }
    var crc := InitCrc(d.header.crc);
    var start := PrimaryStart(d);
    out := [0x9f] + start;
    FeedCrc(crc, d.header.crc, start, []);
    ghost var fed := [] + start;
    var destination := EidWire(d.header.destination);
    if destination == None {
      return false, out;
    }
    out := out + destination.value;
    FeedCrc(crc, d.header.crc, destination.value, fed);
    fed := fed + destination.value;
    var source := EidWire(d.header.source);
    if source == None {
      return false, out;
    }
    out := out + source.value;
    FeedCrc(crc, d.header.crc, source.value, fed);
    fed := fed + source.value;
    var reportTo := EidWire(d.header.reportTo);
    if reportTo == None {
      return false, out;
    }
    out := out + reportTo.value;
    FeedCrc(crc, d.header.crc, reportTo.value, fed);
    fed := fed + reportTo.value;
    var times := PrimaryTimes(d);
    assert fed + times == PrimaryBody(d);
    if d.header.crc != CrcNone {
      FeedCrc(crc, d.header.crc, times, fed);
      var field := WriteCrc(d.header.crc, crc, fed + times);
      times := times + field;
    }
    assert out + times == [0x9f] + PrimaryWire(d);
    out := out + times;
    var i := 0;
    assert d.blocks[..0] == [];
    while i < |d.blocks|
      invariant 0 <= i <= |d.blocks|
      invariant out == [0x9f] + PrimaryWire(d) + BlocksWire(d.blocks[..i])
    {
      var block := SerializeBlock(d.blocks[i]);
      assert d.blocks[..i + 1][..i] == d.blocks[..i];
      out := out + block;
      i := i + 1;
    }
    assert d.blocks[..i] == d.blocks;
    out := out + [0xff];
    ok := true;
  }
}
