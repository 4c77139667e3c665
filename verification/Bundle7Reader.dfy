/** A reader of BPv7 bundles written from section 4 of RFC 9171, independent of
    the serialiser: what it finds in the written octets pins every field. */
module Bundle7Reader {
  import opened Octets
  import opened Cbor
  import opened Bundle7
  import opened Bundle7Wire

  datatype BlockFields = BlockFields(kind: nat, number: nat, flags: nat, crc: CrcType, data: seq<byte>)

  datatype PrimaryFields = PrimaryFields(flags: nat, crc: CrcType, destination: EidItem, source: EidItem,
                                         reportTo: EidItem, creationMs: nat, sequence: nat, lifetimeMs: nat,
                                         fragment: Option<(nat, nat)>)

  // ---- Items

  function ReadUints(count: nat, s: seq<byte>): (r: Option<(seq<nat>, seq<byte>)>)
    ensures r.Some? ==> |r.value.0| == count && |r.value.1| <= |s|
  {
    if count == 0 then Some(([], s))
    else
      match ReadHead(s)
      case Some((0, n, t)) =>
        (match ReadUints(count - 1, t)
         case Some((ns, u)) => Some(([n] + ns, u))
         case None => None)
      case _ => None
  }

  /** A text (major type 3) or octet (major type 2) string. */
  function ReadString(major: nat, s: seq<byte>): (r: Option<(seq<byte>, seq<byte>)>)
    ensures r.Some? ==> |r.value.1| < |s|
  {
    match ReadHead(s)
    case Some((m, n, t)) => if m == major && n <= |t| then Some((t[..n], t[n..])) else None
    case None => None
  }

  function ReadPair(s: seq<byte>): (r: Option<(nat, nat, seq<byte>)>)
    ensures r.Some? ==> |r.value.2| <= |s|
  {
    match ReadHead(s)
    case Some((4, 2, t)) =>
      (match ReadUints(2, t)
       case Some((ns, u)) => Some((ns[0], ns[1], u))
       case None => None)
    case _ => None
  }

  /** An endpoint ID: scheme 1 (dtn) with a text or zero, scheme 2 (ipn) with a
      pair of numbers. */
  function ReadEid(s: seq<byte>): (r: Option<(EidItem, seq<byte>)>)
    ensures r.Some? ==> |r.value.1| <= |s|
  {
    match ReadHead(s)
    case Some((4, 2, t)) =>
      (match ReadUints(1, t)
       case Some((scheme, u)) => ReadSsp(scheme[0], u)
       case None => None)
    case _ => None
  }

  function ReadSsp(scheme: nat, s: seq<byte>): (r: Option<(EidItem, seq<byte>)>)
    ensures r.Some? ==> |r.value.1| <= |s|
  {
    if scheme == 1 then
      match ReadHead(s)
      case Some((0, 0, t)) => Some((DtnNone, t))
      case _ =>
        match ReadString(3, s)
        case Some((ssp, t)) => Some((Dtn(ssp), t))
        case None => None
    else if scheme == 2 then
      match ReadPair(s)
      case Some((node, service, t)) => Some((Ipn(node, service), t))
      case None => None
    else None
  }

  function CrcTypeOf(code: nat): Option<CrcType> {
    if code == 0 then Some(CrcNone) else if code == 1 then Some(Crc16) else if code == 2 then Some(Crc32) else None
  }

  /** Takes the CRC field from `rest`, the end of the block `s`, and checks it
      against the block's octets. */
  function CheckCrc(c: CrcType, s: seq<byte>, rest: seq<byte>): (r: Option<seq<byte>>)
    requires |rest| <= |s|
    ensures r.Some? ==> |r.value| <= |rest|
  {
    var n := CrcFieldSize(c);
    if n > |rest| then None
    else if n > 0 && rest[0] != 0x40 + (n - 1) then None
    else if CrcHolds(c, s[..|s| - |rest| + n]) then Some(rest[n..])
    else None
  }

  // ---- Blocks

  function ReadBlockFields(s: seq<byte>): (r: Option<(nat, BlockFields, seq<byte>)>)
    ensures r.Some? ==> |r.value.2| < |s|
  {
    match ReadHead(s)
    case Some((4, items, t)) =>
      (match ReadUints(4, t)
       case Some((ns, u)) =>
         (match (CrcTypeOf(ns[3]), ReadString(2, u))
          case (Some(c), Some((data, v))) => Some((items, BlockFields(ns[0], ns[1], ns[2], c, data), v))
          case _ => None)
       case None => None)
    case _ => None
  }

  function ReadBlock(s: seq<byte>): (r: Option<(BlockFields, seq<byte>)>)
    ensures r.Some? ==> |r.value.1| < |s|
  {
    match ReadBlockFields(s)
    case Some((items, b, t)) =>
      if items != (if b.crc == CrcNone then 5 else 6) then None
      else
        (match CheckCrc(b.crc, s, t)
         case Some(u) => Some((b, u))
         case None => None)
    case None => None
  }

  /** Blocks up to the break octet that ends the bundle. */
  function ReadBlocks(s: seq<byte>): Option<seq<BlockFields>>
    decreases |s|
  {
    if s == [] then None
    else if s[0] == 0xff then
      if |s| == 1 then Some([]) else None
    else
      match ReadBlock(s)
      case Some((b, t)) => Prefixed([b], ReadBlocks(t))
      case None => None
  }

  // ---- The primary block

  function ReadStart(s: seq<byte>): (r: Option<(nat, nat, CrcType, seq<byte>)>)
    ensures r.Some? ==> |r.value.3| <= |s|
  {
    match ReadHead(s)
    case Some((4, items, t)) =>
      (match ReadUints(3, t)
       case Some((ns, u)) =>
         if ns[0] != 7 then None
         else (match CrcTypeOf(ns[2])
               case Some(c) => Some((items, ns[1], c, u))
               case None => None)
       case None => None)
    case _ => None
  }

  function ReadEids(s: seq<byte>): (r: Option<(EidItem, EidItem, EidItem, seq<byte>)>)
    ensures r.Some? ==> |r.value.3| <= |s|
  {
    match ReadEid(s)
    case Some((destination, t)) =>
      (match ReadEid(t)
       case Some((source, u)) =>
         (match ReadEid(u)
          case Some((reportTo, v)) => Some((destination, source, reportTo, v))
          case None => None)
       case None => None)
    case None => None
  }

  /** Creation time, sequence number, lifetime and, in a fragment, its offset and
      the length of the whole payload. */
  function ReadTimes(fragment: bool, s: seq<byte>): (r: Option<(seq<nat>, Option<(nat, nat)>, seq<byte>)>)
    ensures r.Some? ==> |r.value.0| == 3 && |r.value.2| <= |s|
  {
    match ReadPair(s)
    case Some((creation, sequence, t)) =>
      (match ReadUints(1, t)
       case Some((lifetime, u)) =>
         if !fragment then Some(([creation, sequence, lifetime[0]], None, u))
         else (match ReadUints(2, u)
               case Some((ns, v)) => Some(([creation, sequence, lifetime[0]], Some((ns[0], ns[1])), v))
               case None => None)
       case None => None)
    case None => None
  }

  function ReadPrimary(s: seq<byte>): Option<(PrimaryFields, seq<byte>)> {
    match ReadStart(s)
    case Some((items, flags, crc, t)) =>
      (match ReadEids(t)
       case Some((destination, source, reportTo, u)) =>
         (match ReadTimes(IsFragment(flags), u)
          case Some((times, fragment, v)) =>
            if items != 8 + (if crc == CrcNone then 0 else 1) + (if fragment.Some? then 2 else 0) then None
            else (match CheckCrc(crc, s, v)
                  case Some(w) =>
                    Some((PrimaryFields(flags, crc, destination, source, reportTo, times[0], times[1], times[2],
                                        fragment), w))
                  case None => None)
          case None => None)
       case None => None)
    case None => None
  }

  function ReadBundle(s: seq<byte>): Option<(PrimaryFields, seq<BlockFields>)> {
    if s == [] || s[0] != 0x9f then None
    else
      match ReadPrimary(s[1..])
      case Some((primary, t)) =>
        (match ReadBlocks(t)
         case Some(blocks) => Some((primary, blocks))
         case None => None)
      case None => None
  }

  // ---- What a bundle says

  function BlockContent(b: Block): BlockFields {
    BlockFields(b.kind, b.number, ProtocolFlags(b.flags), b.crc, b.data)
  }

  function Contents(blocks: seq<Block>): (r: seq<BlockFields>)
    ensures |r| == |blocks| && forall i :: 0 <= i < |blocks| ==> r[i] == BlockContent(blocks[i])
  {
    seq(|blocks|, i requires 0 <= i < |blocks| => BlockContent(blocks[i]))
  }

  function PrimaryContent(d: BundleData): PrimaryFields
    requires Writable(d)
  {
    PrimaryFields(FilterFlags(d.procFlags), d.header.crc,
                  EidItemOf(d.header.destination).value, EidItemOf(d.header.source).value,
                  EidItemOf(d.header.reportTo).value,
                  d.header.creationMs, d.header.sequence, d.header.lifetimeMs,
                  if IsFragment(d.procFlags) then Some((d.fragmentOffset, d.totalAduLength)) else None)
  }

  // ---- Items are read back

  lemma {:induction false} UintsRead(ns: seq<nat>, rest: seq<byte>)
    requires forall i :: 0 <= i < |ns| ==> ns[i] < TWO_64
    ensures ReadUints(|ns|, Uints(ns) + rest) == Some((ns, rest))
  {
    hide Head, ReadHead;
    if ns == [] {
      assert [] + rest == rest;
    } else {
      assert Uints(ns) + rest == Head(0, ns[0]) + (Uints(ns[1..]) + rest);
      HeadRoundTrip(0, ns[0], Uints(ns[1..]) + rest);
      UintsRead(ns[1..], rest);
      assert [ns[0]] + ns[1..] == ns;
    }
  }

  lemma StringRead(major: nat, text: seq<byte>, rest: seq<byte>)
    requires major < 8 && |text| < TWO_64
    ensures ReadString(major, Head(major, |text|) + text + rest) == Some((text, rest))
  {
    hide Head, ReadHead;
    HeadRoundTrip(major, |text|, text + rest);
    assert Head(major, |text|) + text + rest == Head(major, |text|) + (text + rest);
    assert (text + rest)[..|text|] == text && (text + rest)[|text|..] == rest;
  }

  lemma PairRead(a: nat, b: nat, rest: seq<byte>)
    requires a < TWO_64 && b < TWO_64
    ensures ReadPair(Head(4, 2) + Uints([a, b]) + rest) == Some((a, b, rest))
  {
    hide Head, ReadHead, ReadUints, Uints;
    HeadRoundTrip(4, 2, Uints([a, b]) + rest);
    assert Head(4, 2) + Uints([a, b]) + rest == Head(4, 2) + (Uints([a, b]) + rest);
    UintsRead([a, b], rest);
  }

  lemma SspRead(e: EidItem, rest: seq<byte>)
    requires ItemInRange(e)
    ensures match e
      case DtnNone => ReadSsp(1, Uints([0]) + rest) == Some((e, rest))
      case Dtn(ssp) => ReadSsp(1, Head(3, |ssp|) + ssp + rest) == Some((e, rest))
      case Ipn(node, service) => ReadSsp(2, Head(4, 2) + Uints([node, service]) + rest) == Some((e, rest))
  {
    hide Head, ReadHead, ReadPair, ReadString;
    match e
    case DtnNone =>
      assert Uints([0]) == Head(0, 0) + Uints([]) == Head(0, 0) by { assert [0][1..] == []; }
      HeadRoundTrip(0, 0, rest);
    case Dtn(ssp) =>
      HeadRoundTrip(3, |ssp|, ssp + rest);
      assert Head(3, |ssp|) + ssp + rest == Head(3, |ssp|) + (ssp + rest);
      StringRead(3, ssp, rest);
    case Ipn(node, service) =>
      PairRead(node, service, rest);
  }

  lemma EidRead(e: EidItem, rest: seq<byte>)
    requires ItemInRange(e)
    ensures ReadEid(EidOctets(e) + rest) == Some((e, rest))
  {
    hide Head, ReadHead, ReadUints, Uints, ReadSsp;
    var scheme := if e.Ipn? then 2 else 1;
    var tail := EidTail(e, rest);
    HeadRoundTrip(4, 2, Uints([scheme]) + tail);
    UintsRead([scheme], tail);
    SspRead(e, rest);
  }

  /** An endpoint ID is a pair of its scheme and the rest. */
  lemma EidTail(e: EidItem, rest: seq<byte>) returns (tail: seq<byte>)
    requires ItemInRange(e)
    ensures EidOctets(e) + rest == Head(4, 2) + (Uints([if e.Ipn? then 2 else 1]) + tail)
    ensures tail == match e
      case DtnNone => Uints([0]) + rest
      case Dtn(ssp) => Head(3, |ssp|) + ssp + rest
      case Ipn(node, service) => Head(4, 2) + Uints([node, service]) + rest
  {
    hide Head, Uints;
    match e
    case DtnNone =>
      tail := Uints([0]) + rest;
      UintsOneZero();
      Joined(Head(4, 2), Uints([1]), Uints([0]), rest);
    case Dtn(ssp) =>
      tail := Head(3, |ssp|) + ssp + rest;
      Joined(Head(4, 2), Uints([1]), Head(3, |ssp|) + ssp, rest);
      assert Head(4, 2) + Uints([1]) + Head(3, |ssp|) + ssp == Head(4, 2) + (Uints([1]) + (Head(3, |ssp|) + ssp));
    case Ipn(node, service) =>
      var pair := Head(4, 2) + Uints([node, service]);
      tail := pair + rest;
      Joined(Head(4, 2), Uints([2]), pair, rest);
      assert Head(4, 2) + Uints([2]) + Head(4, 2) + Uints([node, service]) == Head(4, 2) + (Uints([2]) + pair);
  }

  lemma UintsOneZero()
    ensures Uints([1, 0]) == Uints([1]) + Uints([0])
  {
    hide Head;
    assert [1, 0][1..] == [0];
    assert [1][1..] == [];
  }

  lemma Joined(a: seq<byte>, b: seq<byte>, c: seq<byte>, rest: seq<byte>)
    ensures a + (b + c) + rest == a + (b + (c + rest))
  {
  }

  /** The CRC field the serialiser adds passes the reader's check. */
  lemma CrcRead(c: CrcType, body: seq<byte>, rest: seq<byte>)
    ensures CheckCrc(c, body + CrcField(c, body) + rest, CrcField(c, body) + rest) == Some(rest)
  {
    hide CrcHolds;
    WrittenCrcHolds(c, body);
    var field := CrcField(c, body);
    var s := body + field + rest;
    assert s[..|body| + |field|] == body + field;
    assert (field + rest)[|field|..] == rest;
  }

  // ---- Blocks are read back

  lemma BlockFieldsRead(b: Block, rest: seq<byte>)
    requires BlockInRange(b)
    ensures ReadBlockFields(BlockBody(b) + rest)
            == Some((if b.crc == CrcNone then 5 else 6, BlockContent(b), rest))
  {
    hide Head, ReadHead, ReadUints, Uints, ReadString, ProtocolFlags;
    var items := if b.crc == CrcNone then 5 else 6;
    var ns := [b.kind, b.number, ProtocolFlags(b.flags), CrcCode(b.crc)];
    var tail := Head(2, |b.data|) + b.data + rest;
    assert BlockBody(b) + rest == Head(4, items) + (Uints(ns) + tail);
    HeadRoundTrip(4, items, Uints(ns) + tail);
    UintsRead(ns, tail);
    StringRead(2, b.data, rest);
  }

  lemma BlockRead(b: Block, rest: seq<byte>)
    requires BlockInRange(b)
    ensures ReadBlock(BlockWire(b) + rest) == Some((BlockContent(b), rest))
  {
    hide BlockBody, CrcField, ReadBlockFields, CheckCrc;
    var field := CrcField(b.crc, BlockBody(b));
    assert BlockWire(b) + rest == BlockBody(b) + (field + rest) == BlockBody(b) + field + rest;
    BlockFieldsRead(b, field + rest);
    CrcRead(b.crc, BlockBody(b), rest);
  }

  lemma {:induction false} BlocksWireFront(blocks: seq<Block>)
    requires blocks != [] && forall i :: 0 <= i < |blocks| ==> BlockInRange(blocks[i])
    ensures BlocksWire(blocks) == BlockWire(blocks[0]) + BlocksWire(blocks[1..])
  {
    hide BlockWire;
    var n := |blocks| - 1;
    if n == 0 {
      assert blocks[1..] == [] && blocks[..0] == [];
    } else {
      var middle := BlocksWire(blocks[1..n]);
      BlocksWireFront(blocks[..n]);
      assert blocks[..n][1..] == blocks[1..n] == blocks[1..][..n - 1];
      assert BlockWire(blocks[0]) + middle + BlockWire(blocks[n])
          == BlockWire(blocks[0]) + (middle + BlockWire(blocks[n]));
    }
  }

  lemma BlockStart(b: Block)
    requires BlockInRange(b)
    ensures BlockWire(b) != [] && BlockWire(b)[0] != 0xff
  {
    hide CrcField, Uints, ProtocolFlags;
    assert BlockWire(b)[0] == BlockBody(b)[0] == Head(4, if b.crc == CrcNone then 5 else 6)[0];
  }

  lemma {:induction false} BlocksRead(blocks: seq<Block>)
    requires forall i :: 0 <= i < |blocks| ==> BlockInRange(blocks[i])
    ensures ReadBlocks(BlocksWire(blocks) + [0xff]) == Some(Contents(blocks))
  {
    hide BlockWire, ReadBlock, BlockContent, BlocksWire;
    if blocks == [] {
      assert BlocksWire(blocks) == [] by { NoBlocks(); }
      assert Contents(blocks) == [];
    } else {
      var rest := BlocksWire(blocks[1..]) + [0xff];
      BlocksWireFront(blocks);
      assert BlocksWire(blocks) + [0xff] == BlockWire(blocks[0]) + rest;
      BlockStart(blocks[0]);
      BlockRead(blocks[0], rest);
      BlocksRead(blocks[1..]);
      assert [BlockContent(blocks[0])] + Contents(blocks[1..]) == Contents(blocks);
    }
  }

  lemma NoBlocks()
    ensures BlocksWire([]) == []
  {
  }

  // ---- The primary block is read back

  lemma StartRead(d: BundleData, rest: seq<byte>)
    requires InRange(d)
    ensures ReadStart(PrimaryStart(d) + rest)
            == Some((PrimaryCount(d), FilterFlags(d.procFlags), d.header.crc, rest))
  {
    hide Head, ReadHead, ReadUints, Uints, FilterFlags, PrimaryCount;
    CountFits(d);
    var ns := [7, FilterFlags(d.procFlags), CrcCode(d.header.crc)];
    assert PrimaryStart(d) + rest == Head(4, PrimaryCount(d)) + (Uints(ns) + rest);
    HeadRoundTrip(4, PrimaryCount(d), Uints(ns) + rest);
    UintsRead(ns, rest);
  }

  lemma CountFits(d: BundleData)
    ensures PrimaryCount(d) < TWO_64
  {
  }

  lemma EidsRead(d: BundleData, rest: seq<byte>)
    requires Writable(d)
    ensures ReadEids(EidWire(d.header.destination).value + (EidWire(d.header.source).value
                     + (EidWire(d.header.reportTo).value + rest)))
            == Some((EidItemOf(d.header.destination).value, EidItemOf(d.header.source).value,
                     EidItemOf(d.header.reportTo).value, rest))
  {
    hide EidItemOf, EidOctets, ReadEid;
    var reportTo := EidWire(d.header.reportTo).value + rest;
    var source := EidWire(d.header.source).value + reportTo;
    EidRead(EidItemOf(d.header.destination).value, source);
    EidRead(EidItemOf(d.header.source).value, reportTo);
    EidRead(EidItemOf(d.header.reportTo).value, rest);
  }

  lemma TimesRead(d: BundleData, rest: seq<byte>)
    requires InRange(d)
    ensures ReadTimes(IsFragment(d.procFlags), PrimaryTimes(d) + rest)
            == Some(([d.header.creationMs, d.header.sequence, d.header.lifetimeMs],
                     if IsFragment(d.procFlags) then Some((d.fragmentOffset, d.totalAduLength)) else None, rest))
  {
    hide Head, ReadPair, ReadUints, Uints, IsFragment;
    var h := d.header;
    var tail := (if IsFragment(d.procFlags) then Uints([d.fragmentOffset, d.totalAduLength]) else []) + rest;
    var lifetime := Uints([h.lifetimeMs]) + tail;
    assert PrimaryTimes(d) + rest == Head(4, 2) + Uints([h.creationMs, h.sequence]) + lifetime;
    PairRead(h.creationMs, h.sequence, lifetime);
    UintsRead([h.lifetimeMs], tail);
    if IsFragment(d.procFlags) {
      UintsRead([d.fragmentOffset, d.totalAduLength], rest);
    } else {
      assert tail == rest;
    }
  }

  /** Leaving out flags that are not BPv7's keeps the fragment flag. */
  lemma FilterKeepsFragment(flags: nat)
    ensures IsFragment(FilterFlags(flags)) == IsFragment(flags)
  {
  }

  lemma PrimaryRead(d: BundleData, rest: seq<byte>)
    requires InRange(d) && Writable(d)
    ensures ReadPrimary(PrimaryWire(d) + rest) == Some((PrimaryContent(d), rest))
  {
    hide PrimaryStart, PrimaryTimes, EidWire, CrcField, CheckCrc, ReadStart, ReadEids, ReadTimes, FilterFlags,
         IsFragment, EidItemOf;
    var field := CrcField(d.header.crc, PrimaryBody(d));
    var times := PrimaryTimes(d) + (field + rest);
    var eids := EidWire(d.header.destination).value + (EidWire(d.header.source).value
                + (EidWire(d.header.reportTo).value + times));
    assert PrimaryWire(d) + rest == PrimaryStart(d) + eids;
    assert PrimaryWire(d) + rest == PrimaryBody(d) + field + rest;
    StartRead(d, eids);
    EidsRead(d, times);
    FilterKeepsFragment(d.procFlags);
    TimesRead(d, field + rest);
    CrcRead(d.header.crc, PrimaryBody(d), rest);
  }

  /** Every written bundle is read back, field by field and block by block, with
      every CRC correct. */
  lemma WrittenBundleIsRead(d: BundleData)
    requires InRange(d) && Writable(d)
    ensures ReadBundle(Wire(d)) == Some((PrimaryContent(d), Contents(d.blocks)))
  {
    hide PrimaryWire, BlocksWire, ReadPrimary, ReadBlocks, PrimaryContent, Contents, Writable;
    var rest := BlocksWire(d.blocks) + [0xff];
    assert Wire(d)[1..] == PrimaryWire(d) + rest;
    PrimaryRead(d, rest);
    BlocksRead(d.blocks);
  }
}
