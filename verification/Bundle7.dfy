/** BPv7 bundles and the size prediction of components/bundle7/bundle7.c.
    `BundleData` is the content of a bundle; `Bundle` is the record that
    fragmentation edits in place. */
module Bundle7 {
  import opened Octets
  import opened Cbor
  import Eid

  datatype CrcType = CrcNone | Crc16 | Crc32

  function CrcCode(c: CrcType): nat {
    match c case CrcNone => 0 case Crc16 => 1 case Crc32 => 2
  }

  /** Size of the CRC field: a byte string of 2 or 4 octets. */
  function CrcFieldSize(c: CrcType): nat {
    match c case CrcNone => 0 case Crc16 => 3 case Crc32 => 5
  }

  const PAYLOAD: nat := 1

  datatype Block = Block(kind: nat, number: nat, flags: nat, crc: CrcType, data: seq<byte>)

  /** The fields of the primary block that fragmentation copies unchanged. */
  datatype Header = Header(version: nat, crc: CrcType,
                           destination: string, source: string, reportTo: string,
                           creationMs: nat, sequence: nat, lifetimeMs: nat)

  datatype BundleData = BundleData(header: Header, procFlags: nat,
                                   fragmentOffset: nat, totalAduLength: nat,
                                   primaryLength: nat, blocks: seq<Block>, payload: nat)

  predicate IsFragment(procFlags: nat) {
    procFlags % 2 == 1
  }

  function SetFragmentFlag(procFlags: nat): nat {
    if IsFragment(procFlags) then procFlags else procFlags + 1
  }

  predicate MustReplicate(b: Block) {
    b.flags % 2 == 1
  }

  /** `bundle7_convert_to_protocol_block_flags`: keeps bits 0, 1, 2 and 4. */
  function ProtocolFlags(flags: nat): (r: nat)
    ensures r <= flags
  {
    flags % 8 + flags / 16 % 2 * 16
  }

  // ---- Sizes

  function EidSize(eid: string): nat {
    if eid == "" || eid == "dtn:none" then 3
    else if eid[0] == 'd' then
      var length := (|eid| - 4) % TWO_64;
      (1 + UintSize(1) + UintSize(length) + length) % TWO_64
    else match Eid.ParseIpn(eid)
      case None => 0
      case Some((node, service)) => 1 + UintSize(2) + 1 + UintSize(node) + UintSize(service)
  }

  /** The part of the primary block that does not depend on fragmentation. */
  function HeaderSize(h: Header): nat {
    1 + UintSize(h.version) + UintSize(CrcCode(h.crc))
    + EidSize(h.destination) + EidSize(h.source) + EidSize(h.reportTo)
    + 1 + UintSize(h.creationMs) + UintSize(h.sequence) + UintSize(h.lifetimeMs)
    + CrcFieldSize(h.crc)
  }

  /** The primary block length before it is stored in its 16-bit field. */
  function PrimarySize(d: BundleData): nat {
    HeaderSize(d.header) + UintSize(d.procFlags)
    + (if IsFragment(d.procFlags)
       then UintSize(d.fragmentOffset) + UintSize(d.totalAduLength) else 0)
  }

  function BlockSize(b: Block): nat {
    1 + UintSize(b.kind) + UintSize(b.number) + UintSize(ProtocolFlags(b.flags))
    + UintSize(CrcCode(b.crc)) + UintSize(|b.data|) + |b.data| + CrcFieldSize(b.crc)
  }

  /** The payload block's share of a fragment's minimum size. */
  function PayloadMin(b: Block): nat {
    1 + UintSize(b.kind) + UintSize(b.number) + UintSize(b.flags)
    + UintSize(CrcCode(b.crc)) + UintSize(|b.data|) + CrcFieldSize(b.crc) + 2
  }

  function FirstMinBlock(b: Block): nat {
    if b.kind == PAYLOAD then PayloadMin(b) else BlockSize(b)
  }

  function LastMinBlock(b: Block): nat {
    if b.kind == PAYLOAD then PayloadMin(b)
    else if MustReplicate(b) then BlockSize(b)
    else 0
  }

  function Total(blocks: seq<Block>, f: Block -> nat): nat {
    if blocks == [] then 0 else Total(blocks[..|blocks| - 1], f) + f(blocks[|blocks| - 1])
  }

  function SerializedSize(d: BundleData): nat {
    1 + d.primaryLength + Total(d.blocks, BlockSize) + 1
  }

  /** What fragmenting adds to the primary block, estimated with the largest
      possible fragment offset. */
  function FragmentFields(d: BundleData): int
    requires d.payload < |d.blocks|
  {
    if IsFragment(d.procFlags) then UintSize(d.totalAduLength) - UintSize(d.fragmentOffset)
    else 2 * UintSize(|d.blocks[d.payload].data|)
  }

  function FirstMinSize(d: BundleData): int
    requires d.payload < |d.blocks|
  {
    d.primaryLength + Total(d.blocks, FirstMinBlock) + FragmentFields(d)
  }

  /** Also the middle fragment's minimum size: BPv7 does not distinguish them. */
  function LastMinSize(d: BundleData): int
    requires d.payload < |d.blocks|
  {
    d.primaryLength + Total(d.blocks, LastMinBlock) + FragmentFields(d)
  }

  // ---- The record

  class Bundle {
    var header: Header
    var procFlags: nat
    var fragmentOffset: nat
    var totalAduLength: nat
    var primaryLength: nat
    var blocks: seq<Block>
    /** Index in `blocks` of the block the payload reference points to. */
    var payload: nat

    constructor (d: BundleData)
      ensures Data() == d
    {
      header, procFlags := d.header, d.procFlags;
      fragmentOffset, totalAduLength := d.fragmentOffset, d.totalAduLength;
      primaryLength, blocks, payload := d.primaryLength, d.blocks, d.payload;
    }

    function Data(): BundleData
      reads this
    {
      BundleData(header, procFlags, fragmentOffset, totalAduLength, primaryLength, blocks, payload)
    }

    method RecalculatePrimaryLength()
      modifies this`primaryLength
      ensures Data() == old(Data()).(primaryLength := PrimarySize(old(Data())) % TWO_16)
    {
      var size := 1 + UintSize(header.version) + UintSize(procFlags) + UintSize(CrcCode(header.crc))
      + EidSize(header.destination) + EidSize(header.source) + EidSize(header.reportTo)
      + 1 + UintSize(header.creationMs) + UintSize(header.sequence) + UintSize(header.lifetimeMs);
      if IsFragment(procFlags) {
        size := size + UintSize(fragmentOffset);
        size := size + UintSize(totalAduLength);
      }
      if header.crc == Crc32 {
        size := size + 5;
      } else if header.crc == Crc16 {
        size := size + 3;
      }
      primaryLength := size % TWO_16;
    }

    method GetSerializedSize() returns (size: nat)
      ensures size == SerializedSize(Data())
    {
      var sum := 0;
      for i := 0 to |blocks|
        invariant sum == Total(blocks[..i], BlockSize)
      {
        assert blocks[..i + 1][..i] == blocks[..i];
        sum := sum + BlockSize(blocks[i]);
      }
      assert blocks[..|blocks|] == blocks;
      size := 1 + primaryLength + sum + 1;
    }

    method GetFirstFragmentMinSize() returns (size: int)
      requires payload < |blocks|
      ensures size == FirstMinSize(Data())
    {
      var sum := 0;
      for i := 0 to |blocks|
        invariant sum == Total(blocks[..i], FirstMinBlock)
      {
        assert blocks[..i + 1][..i] == blocks[..i];
        if blocks[i].kind == PAYLOAD {
          sum := sum + PayloadMin(blocks[i]);
        } else {
          sum := sum + BlockSize(blocks[i]);
        }
      }
      assert blocks[..|blocks|] == blocks;
      if !IsFragment(procFlags) {
        sum := sum + UintSize(|blocks[payload].data|);
        sum := sum + UintSize(|blocks[payload].data|);
        size := primaryLength + sum;
      } else {
        size := primaryLength + sum + (UintSize(totalAduLength) - UintSize(fragmentOffset));
      }
    }

    method GetLastFragmentMinSize() returns (size: int)
      requires payload < |blocks|
      ensures size == LastMinSize(Data())
    {
      var sum := 0;
      for i := 0 to |blocks|
        invariant sum == Total(blocks[..i], LastMinBlock)
      {
        assert blocks[..i + 1][..i] == blocks[..i];
        if blocks[i].kind == PAYLOAD {
          sum := sum + PayloadMin(blocks[i]);
        } else if MustReplicate(blocks[i]) {
          sum := sum + BlockSize(blocks[i]);
        }
      }
      assert blocks[..|blocks|] == blocks;
      if !IsFragment(procFlags) {
        sum := sum + UintSize(|blocks[payload].data|);
        sum := sum + UintSize(|blocks[payload].data|);
        size := primaryLength + sum;
      } else {
        size := primaryLength + sum + (UintSize(totalAduLength) - UintSize(fragmentOffset));
      }
    }
  }

  // ---- Well-formed bundles

  /** The payload reference points to the one block of payload type. */
  predicate OnePayload(d: BundleData) {
    d.payload < |d.blocks| &&
    forall i :: 0 <= i < |d.blocks| ==> (d.blocks[i].kind == PAYLOAD <==> i == d.payload)
  }

  function Payload(d: BundleData): seq<byte>
    requires d.payload < |d.blocks|
  {
    d.blocks[d.payload].data
  }

  /** A BPv7 bundle as the parser and the bundle factory produce it: one
      payload block, an up-to-date primary block length that fits its field,
      and a fragment that lies inside its ADU. */
  predicate WellFormed(d: BundleData) {
    && OnePayload(d)
    && d.header.version == 7
    && HeaderSize(d.header) + 27 < TWO_16
    && d.primaryLength == PrimarySize(d)
    && |Payload(d)| < TWO_32
    && (IsFragment(d.procFlags) ==> d.fragmentOffset + |Payload(d)| <= d.totalAduLength < TWO_32)
    && (!IsFragment(d.procFlags) ==> d.fragmentOffset == 0)
  }

  lemma PayloadPresent(d: BundleData)
    requires WellFormed(d)
    ensures d.payload < |d.blocks|
  {
  }

  // ---- Sums over block lists

  lemma {:induction false} TotalUpdate(blocks: seq<Block>, i: nat, b: Block, f: Block -> nat)
    requires i < |blocks|
    ensures Total(blocks[i := b], f) == Total(blocks, f) - f(blocks[i]) + f(b)
  {
    var last := |blocks| - 1;
    if i == last {
      assert blocks[i := b][..last] == blocks[..last];
    } else {
      TotalUpdate(blocks[..last], i, b, f);
      assert blocks[i := b][..last] == blocks[..last][i := b];
    }
  }

  lemma TotalSnoc(blocks: seq<Block>, b: Block, f: Block -> nat)
    ensures Total(blocks + [b], f) == Total(blocks, f) + f(b)
  {
    assert (blocks + [b])[..|blocks|] == blocks;
  }

  lemma {:induction false} TotalNone(blocks: seq<Block>, f: Block -> nat)
    requires forall b :: b in blocks ==> f(b) == 0
    ensures Total(blocks, f) == 0
  {
    if blocks != [] {
      TotalNone(blocks[..|blocks| - 1], f);
    }
  }

  /** A sum to which only one position contributes. */
  lemma {:induction false} TotalSingle(blocks: seq<Block>, p: nat, f: Block -> nat)
    requires p < |blocks|
    requires forall i :: 0 <= i < |blocks| && i != p ==> f(blocks[i]) == 0
    ensures Total(blocks, f) == f(blocks[p])
  {
    var init := blocks[..|blocks| - 1];
    if p == |blocks| - 1 {
      TotalNone(init, f);
    } else {
      TotalSingle(init, p, f);
    }
  }

  function PayloadPart(b: Block): nat {
    if b.kind == PAYLOAD then PayloadMin(b) else 0
  }

  function PayloadBlockSize(b: Block): nat {
    if b.kind == PAYLOAD then BlockSize(b) else 0
  }

  /** `FirstMinBlock` and `BlockSize` agree outside the payload. */
  lemma {:induction false} FirstMinSplit(blocks: seq<Block>)
    ensures Total(blocks, FirstMinBlock) + Total(blocks, PayloadBlockSize)
         == Total(blocks, BlockSize) + Total(blocks, PayloadPart)
  {
    if blocks != [] {
      FirstMinSplit(blocks[..|blocks| - 1]);
    }
  }

  lemma {:induction false} LastMinAtMostFirstMin(blocks: seq<Block>)
    ensures Total(blocks, LastMinBlock) <= Total(blocks, FirstMinBlock)
  {
    if blocks != [] {
      LastMinAtMostFirstMin(blocks[..|blocks| - 1]);
    }
  }

  lemma OnePayloadTotals(d: BundleData)
    requires OnePayload(d)
    ensures Total(d.blocks, PayloadPart) == PayloadMin(d.blocks[d.payload])
    ensures Total(d.blocks, PayloadBlockSize) == BlockSize(d.blocks[d.payload])
  {
    TotalSingle(d.blocks, d.payload, PayloadPart);
    TotalSingle(d.blocks, d.payload, PayloadBlockSize);
  }

  /** The minimum size of a fragment bounds what the bundle serialises to once
      its payload is added: the two octets counted for an empty payload pay for
      the array start and stop, and the estimate for the offset never falls
      short. */
  lemma SizeWithinFirstMin(d: BundleData)
    requires WellFormed(d) && IsFragment(d.procFlags)
    ensures SerializedSize(d) <= FirstMinSize(d) + |Payload(d)|
  {
    FirstMinSplit(d.blocks);
    OnePayloadTotals(d);
    var b := d.blocks[d.payload];
    UintSizeMonotone(ProtocolFlags(b.flags), b.flags);
    UintSizeMonotone(d.fragmentOffset, d.totalAduLength);
  }
}
