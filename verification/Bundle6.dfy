/** BPv6 bundles (RFC 5050), their dictionary and how components/bundle6 writes
    them. Strings are octets without a terminator. */
module Bundle6 {
  import opened Octets
  import Sdnv

  type Text = seq<byte>

  const COLON: byte := 58
  const PAYLOAD_BLOCK: byte := 1
  const LAST_BLOCK := 0x08
  const HAS_EID_REFS := 0x40

  /** A block; `refs` are the endpoint IDs it refers to. */
  datatype Block = Block(kind: byte, flags: nat, refs: seq<Text>, length: nat, data: seq<byte>)

  datatype Bundle = Bundle(version: byte, flags: nat, primaryLength: nat,
                           destination: Option<Text>, source: Option<Text>, reportTo: Option<Text>,
                           custodian: Option<Text>,
                           creationMs: nat, sequence: nat, lifetimeMs: nat,
                           fragmentOffset: nat, totalAduLength: nat, blocks: seq<Block>)

  predicate HasBit(flags: nat, bit: nat)
    requires bit > 0
  {
    flags / bit % 2 == 1
  }

  predicate IsFragment(flags: nat) {
    HasBit(flags, 1)
  }

  /** Fields in their C types, strings without terminators, blocks without
      endpoint references. */
  predicate InRange(b: Bundle) {
    && b.flags < TWO_32 && b.primaryLength < TWO_16
    && b.creationMs < TWO_64 && b.sequence < TWO_64 && b.lifetimeMs < TWO_64
    && b.fragmentOffset < TWO_32 && b.totalAduLength < TWO_32
    && IsString(b.destination) && IsString(b.source) && IsString(b.reportTo) && IsString(b.custodian)
    && forall i :: 0 <= i < |b.blocks| ==> BlockInRange(b.blocks[i])
  }

  predicate IsString(e: Option<Text>) {
    e.Some? ==> 0 !in e.value
  }

  predicate BlockInRange(b: Block) {
    b.flags < TWO_32 && b.length == |b.data| < TWO_32 && b.refs == [] && !HasBit(b.flags, HAS_EID_REFS)
  }

  // ---- The dictionary

  /** The position of the first colon, or the end. */
  function ColonAt(e: Text): (r: nat)
    ensures r <= |e|
    ensures COLON !in e[..r]
    ensures r < |e| ==> e[r] == COLON
  {
    if e == [] || e[0] == COLON then 0 else 1 + ColonAt(e[1..])
  }

  /** "dtn" and "none" stand for a missing endpoint ID and one without a colon. */
  const DTN: Text := [100, 116, 110]
  const NONE: Text := [110, 111, 110, 101]

  predicate HasColon(e: Option<Text>) {
    e.Some? && ColonAt(e.value) < |e.value|
  }

  function Scheme(e: Option<Text>): Text {
    if HasColon(e) then e.value[..ColonAt(e.value)] else DTN
  }

  function Ssp(e: Option<Text>): Text {
    if HasColon(e) then e.value[ColonAt(e.value) + 1..] else NONE
  }

  /** Scheme and scheme-specific part, each with its terminator. */
  function Entry(e: Option<Text>): (r: seq<byte>)
    ensures |r| == |Scheme(e)| + |Ssp(e)| + 2
  {
    Scheme(e) + [0] + Ssp(e) + [0]
  }

  function Eids(b: Bundle): (r: seq<Option<Text>>)
    ensures |r| == 4
  {
    [b.destination, b.source, b.reportTo, b.custodian]
  }

  function Dictionary(eids: seq<Option<Text>>): seq<byte> {
    if eids == [] then [] else Dictionary(eids[..|eids| - 1]) + Entry(eids[|eids| - 1])
  }

  /** `calculate_eid_info`: the offsets of an entry's two parts. */
  function EntryOffsets(e: Option<Text>, at: nat): (r: seq<nat>)
    ensures |r| == 2
  {
    [at, at + |Scheme(e)| + 1]
  }

  /** The offsets of all entries. */
  function Offsets(eids: seq<Option<Text>>): (r: seq<nat>)
    ensures |r| == 2 * |eids|
  {
    if eids == [] then []
    else Offsets(eids[..|eids| - 1]) + EntryOffsets(eids[|eids| - 1], |Dictionary(eids[..|eids| - 1])|)
  }

  // ---- The octets

  /** The flags of RFC 5050: bits 0 to 5, 7, 8 and 14 to 18. */
  function ProtocolFlags(flags: nat): (r: nat)
    ensures r <= flags
  {
    var from6 := flags / 0x40;
    var from7 := from6 / 2;
    var from9 := from7 / 4;
    var from14 := from9 / 0x20;
    flags % 0x40 + from7 % 4 * 0x80 + from14 % 0x20 * 0x4000
  }

  function Sdnvs(values: seq<nat>): seq<byte> {
    if values == [] then [] else Sdnv.Encode(values[0]) + Sdnvs(values[1..])
  }

  function Truncated(values: seq<nat>): (r: seq<nat>)
    ensures |r| == |values| && forall i :: 0 <= i < |r| ==> r[i] == values[i] % TWO_16
  {
    seq(|values|, i requires 0 <= i < |values| => values[i] % TWO_16)
  }

  /** The numbers up to the dictionary, after flags and block length. */
  function HeaderNumbers(b: Bundle): seq<nat> {
    Truncated(Offsets(Eids(b))) + [b.creationMs / 1000, b.sequence, b.lifetimeMs / 1000, |Dictionary(Eids(b))| % TWO_16]
  }

  function FragmentNumbers(b: Bundle): seq<nat> {
    if IsFragment(b.flags) then [b.fragmentOffset, b.totalAduLength] else []
  }

  /** The primary block after its length field. */
  function PrimaryRest(b: Bundle): seq<byte> {
    Sdnvs(HeaderNumbers(b)) + (Dictionary(Eids(b)) + Sdnvs(FragmentNumbers(b)))
  }

  function BlockWire(b: Block): seq<byte> {
    [b.kind] + Sdnvs([b.flags, b.length]) + b.data
  }

  function BlocksWire(blocks: seq<Block>): seq<byte> {
    if blocks == [] then [] else BlocksWire(blocks[..|blocks| - 1]) + BlockWire(blocks[|blocks| - 1])
  }

  function Wire(b: Bundle): seq<byte> {
    [b.version] + Sdnvs([ProtocolFlags(b.flags), b.primaryLength]) + PrimaryRest(b) + BlocksWire(b.blocks)
  }

  // ---- The header length

  function Sizes(w: Sdnv.Width, values: seq<nat>): nat {
    if values == [] then 0 else Sdnv.Size(w, values[0]) + Sizes(w, values[1..])
  }

  /** The sum in `bundle6_recalculate_header_length`. */
  function HeaderSum(b: Bundle): nat {
    1 + Sdnv.Size(Sdnv.U32, b.flags) + Sdnv.Size(Sdnv.U32, b.primaryLength)
    + Sizes(Sdnv.U32, Offsets(Eids(b)))
    + Sizes(Sdnv.U64, [b.creationMs / 1000, b.sequence, b.lifetimeMs / 1000])
    + Sdnv.Size(Sdnv.U32, |Dictionary(Eids(b))|) + |Dictionary(Eids(b))|
    + Sizes(Sdnv.U32, FragmentNumbers(b))
  }

  /** `bundle6_recalculate_header_length`: the field has 16 bits. */
  function Recalculated(b: Bundle): Bundle {
    b.(primaryLength := HeaderSum(b) % TWO_16)
  }
}
