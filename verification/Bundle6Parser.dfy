/** The BPv6 parser of components/bundle6/parser.c as a machine over octets. */
module Bundle6Parser {
  import opened Octets
  import opened Bundle6
  import Sdnv

  /** BUNDLE_MAX_SIZE */
  const MAX_SIZE := 0x4000_0000

  /** PARSER_STAGE_*; `EidRef(k)` are the eight stages from the destination's scheme
      to the custodian's scheme-specific part. */
  datatype Stage =
    | Version | ProcFlags | BlockLength | EidRef(k: nat)
    | Timestamp | SequenceNum | Lifetime | DictLength | Dict
    | FragmentOffset | AduLength
    | BlockType | BlockFlags | EidRefCount | EidRefScheme | EidRefSsp | BlockDataLength | BlockData
    | Finished

  datatype Status = Good | Done | Error

  /** What has been read so far. */
  datatype Content = Content(bundle: Bundle, refs: seq<nat>, curRef: (nat, nat), dictLength: nat, dict: seq<byte>,
                             curRemaining: nat, index: nat, size: nat, payload: bool, lastBlock: bool)

  /** struct bundle6_parser: where the parser is, and what it has read. */
  datatype Parser = Parser(status: Status, stage: Stage, inPrimary: bool, primaryRemaining: nat, sdnv: Sdnv.State,
                           bulk: bool, nextBytes: nat, sent: Option<Bundle>, content: Content)

  const EMPTY_BUNDLE := Bundle(0, 0, 0, None, None, None, None, 0, 0, 0, 0, 0, [])

  /** `bundle6_parser_reset`; `bundleSize` is the size of struct bundle. */
  function Start(bundleSize: nat): Parser {
    Parser(Good, Version, true, 0, Sdnv.FRESH, false, 0, None,
           Content(EMPTY_BUNDLE, [0, 0, 0, 0, 0, 0, 0, 0], (0, 0), 0, [], 0, 0, bundleSize, false, false))
  }

  // ---- Endpoint IDs

  /** The C string at an offset of the dictionary, which is zero-terminated. */
  function StringAt(dict: seq<byte>, at: nat): Text
    requires at <= |dict|
    decreases |dict| - at
  {
    if at == |dict| || dict[at] == 0 then [] else [dict[at]] + StringAt(dict, at + 1)
  }

  /** `bundle6_read_eid` */
  function ReadEid(dict: seq<byte>, scheme: nat, ssp: nat): Option<Text> {
    if scheme >= |dict| || ssp >= |dict| then None
    else if COLON in StringAt(dict, scheme) then None
    else Some(StringAt(dict, scheme) + [COLON] + StringAt(dict, ssp))
  }

  function Decimal(n: nat): seq<byte> {
    if n < 10 then [48 + n] else Decimal(n / 10) + [48 + n % 10]
  }

  /** `bundle6_create_eid_cbhe` (RFC 6260) */
  function CbheEid(node: nat, service: nat): Text {
    if node == 0 || service == 0 then DTN + [COLON] + NONE
    else [105, 112, 110, COLON] + Decimal(node) + [46] + Decimal(service)
  }

  function EidAt(c: Content, scheme: nat, ssp: nat): Option<Text> {
    if c.dictLength == 0 then Some(CbheEid(scheme, ssp)) else ReadEid(c.dict, scheme, ssp)
  }

  /** Stages that work on the current block. */
  predicate InBlock(s: Stage) {
    s.BlockFlags? || s.EidRefCount? || s.EidRefScheme? || s.EidRefSsp? || s.BlockDataLength? || s.BlockData?
  }

  predicate ContentFor(s: Stage, c: Content) {
    && |c.refs| == 8
    && (s.EidRef? ==> s.k < 8)
    && (InBlock(s) ==> c.bundle.blocks != [])
  }

  predicate Wellformed(p: Parser) {
    ContentFor(p.stage, p.content) && (p.bulk ==> p.stage == BlockData)
  }

  function WithEids(c: Content): Content
    requires |c.refs| == 8
  {
    c.(bundle := c.bundle.(source := EidAt(c, c.refs[2], c.refs[3]), destination := EidAt(c, c.refs[0], c.refs[1]),
                           reportTo := EidAt(c, c.refs[4], c.refs[5]), custodian := EidAt(c, c.refs[6], c.refs[7])))
  }

  predicate EidsRead(b: Bundle) {
    b.source.Some? && b.destination.Some? && b.reportTo.Some? && b.custodian.Some?
  }

  // ---- Stages

  predicate LengthKnown(s: Stage) {
    s != Version && s != ProcFlags && s != BlockLength
  }

  function AfterPrimaryHeader(b: Bundle): Stage {
    if IsFragment(b.flags) then FragmentOffset else BlockType
  }

  function LastBlockOf(c: Content): Block
    requires c.bundle.blocks != []
  {
    c.bundle.blocks[|c.bundle.blocks| - 1]
  }

  function WithLastBlock(c: Content, block: Block): Content
    requires c.bundle.blocks != []
  {
    c.(bundle := c.bundle.(blocks := c.bundle.blocks[|c.bundle.blocks| - 1 := block]))
  }

  /** Without a dictionary the endpoint IDs are known now, and the SDNV state is
      left as it is. */
  function EnterDictionary(p: Parser): (r: Parser)
    requires Wellformed(p) && !p.bulk
    ensures Wellformed(r) && !r.bulk
  {
    var c := p.content.(index := 0);
    if c.dictLength == 0 then
      if IsFragment(c.bundle.flags) then p.(stage := FragmentOffset, content := WithEids(c))
      else p.(stage := BlockType, inPrimary := false, content := WithEids(c))
    else
      var size := (c.size + c.dictLength + 1) % TWO_32;
      p.(stage := Dict, status := if size > MAX_SIZE then Error else p.status,
         content := c.(curRemaining := c.dictLength, size := size, dict := []))
  }

  /** A bulk read of the block's data begins. */
  function EnterData(p: Parser): (r: Parser)
    requires Wellformed(p) && !p.bulk && p.content.bundle.blocks != []
    ensures Wellformed(r)
  {
    var length := LastBlockOf(p.content).length;
    var size := (p.content.size + length) % TWO_32;
    p.(stage := BlockData, status := if size > MAX_SIZE then Error else p.status,
       nextBytes := length, bulk := size <= MAX_SIZE,
       content := p.content.(index := 0, curRemaining := 0, size := size))
  }

  /** `bundle6_parser_next`: what a stage begins with. */
  function Enter(p: Parser, next: Stage): (r: Parser)
    requires Wellformed(p) && !p.bulk && ContentFor(next, p.content)
    ensures Wellformed(r) && (r.bulk ==> next == BlockData)
  {
    match next
    case Dict => EnterDictionary(p)
    case BlockData => EnterData(p)
    case BlockType => p.(inPrimary := false, stage := next)
    case Finished =>
      p.(stage := next, status := Done, sent := if p.content.payload then Some(p.content.bundle) else None)
    case _ =>
      p.(stage := next, sdnv := Sdnv.FRESH, content := Converted(p.content, next),
         primaryRemaining := if next == EidRef(0) then p.content.bundle.primaryLength else p.primaryRemaining)
  }

  /** Times are converted from seconds when their successor begins. */
  function Converted(c: Content, next: Stage): Content {
    if next == SequenceNum then c.(bundle := c.bundle.(creationMs := c.bundle.creationMs * 1000 % TWO_64))
    else if next == DictLength then c.(bundle := c.bundle.(lifetimeMs := c.bundle.lifetimeMs * 1000 % TWO_64))
    else c
  }

  /** The width of the SDNV a stage reads, if it reads one. */
  function WidthOf(s: Stage): Option<Sdnv.Width> {
    match s
    case ProcFlags => Some(Sdnv.U32)
    case BlockLength => Some(Sdnv.U16)
    case EidRef(_) => Some(Sdnv.U64)
    case Timestamp => Some(Sdnv.U64)
    case SequenceNum => Some(Sdnv.U64)
    case Lifetime => Some(Sdnv.U64)
    case DictLength => Some(Sdnv.U16)
    case FragmentOffset => Some(Sdnv.U32)
    case AduLength => Some(Sdnv.U32)
    case BlockFlags => Some(Sdnv.U8)
    case EidRefCount => Some(Sdnv.U32)
    case EidRefScheme => Some(Sdnv.U64)
    case EidRefSsp => Some(Sdnv.U64)
    case BlockDataLength => Some(Sdnv.U32)
    case _ => None
  }

  /** The field an SDNV is read into. */
  function Load(s: Stage, c: Content): nat
    requires ContentFor(s, c)
  {
    match s
    case ProcFlags => c.bundle.flags
    case BlockLength => c.bundle.primaryLength
    case EidRef(k) => c.refs[k]
    case Timestamp => c.bundle.creationMs
    case SequenceNum => c.bundle.sequence
    case Lifetime => c.bundle.lifetimeMs
    case DictLength => c.dictLength
    case FragmentOffset => c.bundle.fragmentOffset
    case AduLength => c.bundle.totalAduLength
    case BlockFlags => LastBlockOf(c).flags % 256
    case EidRefCount => c.size
    case EidRefScheme => c.curRef.0
    case EidRefSsp => c.curRef.1
    case BlockDataLength => LastBlockOf(c).length
    case _ => 0
  }

  function Store(s: Stage, c: Content, v: nat): (r: Content)
    requires ContentFor(s, c)
    ensures ContentFor(s, r)
  {
    match s
    case ProcFlags => c.(bundle := c.bundle.(flags := v))
    case BlockLength => c.(bundle := c.bundle.(primaryLength := v))
    case EidRef(k) => c.(refs := c.refs[k := v])
    case Timestamp => c.(bundle := c.bundle.(creationMs := v))
    case SequenceNum => c.(bundle := c.bundle.(sequence := v))
    case Lifetime => c.(bundle := c.bundle.(lifetimeMs := v))
    case DictLength => c.(dictLength := v)
    case FragmentOffset => c.(bundle := c.bundle.(fragmentOffset := v))
    case AduLength => c.(bundle := c.bundle.(totalAduLength := v))
    case BlockFlags => WithLastBlock(c, LastBlockOf(c).(flags := LastBlockOf(c).flags / 256 * 256 + v))
    case EidRefCount => c.(size := v)
    case EidRefScheme => c.(curRef := (v, c.curRef.1))
    case EidRefSsp => c.(curRef := (c.curRef.0, v))
    case BlockDataLength => WithLastBlock(c, LastBlockOf(c).(length := v))
    case _ => c
  }

  /** The stage after a complete SDNV. */
  function Following(s: Stage, c: Content): (r: Stage)
    requires ContentFor(s, c)
    ensures ContentFor(r, c)
  {
    match s
    case ProcFlags => BlockLength
    case BlockLength => EidRef(0)
    case EidRef(k) => if k < 7 then EidRef(k + 1) else Timestamp
    case Timestamp => SequenceNum
    case SequenceNum => Lifetime
    case Lifetime => DictLength
    case DictLength => Dict
    case FragmentOffset => AduLength
    case AduLength => BlockType
    case BlockFlags => if HasBit(LastBlockOf(c).flags, HAS_EID_REFS) then EidRefCount else BlockDataLength
    case EidRefCount => if c.size == 0 then BlockDataLength else EidRefScheme
    case EidRefScheme => EidRefSsp
    case EidRefSsp => if c.index == c.size then BlockDataLength else EidRefScheme
    case BlockDataLength => BlockData
    case _ => s
  }

  /** What else a complete SDNV changes; a reference that cannot be read is an
      error. */
  function Noted(s: Stage, c: Content): (r: Option<Content>)
    requires ContentFor(s, c)
    ensures r.Some? ==> ContentFor(s, r.value)
  {
    match s
    case BlockFlags => Some(c.(lastBlock := HasBit(LastBlockOf(c).flags, LAST_BLOCK)))
    case EidRefCount => Some(c.(index := 0))
    case EidRefSsp =>
      var eid := EidAt(c, c.curRef.0, c.curRef.1);
      if eid == None then None
      else Some(WithLastBlock(c, LastBlockOf(c).(refs := [eid.value] + LastBlockOf(c).refs)).(index := c.index + 1))
    case _ => Some(c)
  }

  function SdnvDone(p: Parser): (r: Parser)
    requires Wellformed(p) && !p.bulk
    ensures Wellformed(r)
  {
    match Noted(p.stage, p.content)
    case None => p.(status := Error)
    case Some(c) => Enter(p.(content := c), Following(p.stage, c))
  }

  function SdnvByte(p: Parser, w: Sdnv.Width, b: byte): (r: Parser)
    requires Wellformed(p) && !p.bulk
    ensures Wellformed(r)
  {
    var (sdnv, v) := Sdnv.Read(w, p.sdnv, Load(p.stage, p.content), b);
    var q := p.(sdnv := sdnv, content := Store(p.stage, p.content, v));
    match sdnv.status
    case InProgress => q
    case Done => SdnvDone(q)
    case Failed => q.(status := Error)
  }

  function DictByte(p: Parser, b: byte): (r: Parser)
    requires Wellformed(p) && !p.bulk
    ensures Wellformed(r) && !r.bulk
  {
    var c := p.content;
    var d := c.(curRemaining := (c.curRemaining + TWO_32 - 1) % TWO_32, dict := c.dict + [b], index := c.index + 1);
    if d.curRemaining > 0 then p.(content := d)
    else
      var q := p.(content := WithEids(d));
      if !EidsRead(q.content.bundle) then q.(status := Error) else Enter(q, AfterPrimaryHeader(d.bundle))
  }

  /** `bundle6_parser_begin_block` */
  function BeginBlock(c: Content, kind: byte): Content {
    c.(bundle := c.bundle.(blocks := c.bundle.blocks + [Block(kind, 0, [], 0, [])]),
       payload := c.payload || kind == PAYLOAD_BLOCK)
  }

  /** `bundle6_parser_read_byte` after the check of the block length. */
  function StageByte(p: Parser, b: byte): (r: Parser)
    requires Wellformed(p) && !p.bulk
    ensures Wellformed(r) && (p.stage == BlockData ==> !r.bulk)
  {
    if WidthOf(p.stage).Some? then SdnvByte(p, WidthOf(p.stage).value, b)
    else
      match p.stage
      case Version => Enter(p.(content := p.content.(bundle := p.content.bundle.(version := b))), ProcFlags)
      case Dict => DictByte(p, b)
      case BlockType => Enter(p.(content := BeginBlock(p.content, b)), BlockFlags)
      case BlockData =>
        if p.content.curRemaining != 0 then p.(status := Error)
        else Enter(p, if p.content.lastBlock then Finished else BlockType)
      case _ => p.(status := Error)
  }

  /** `bundle6_parser_read_byte` */
  function ReadByte(p: Parser, b: byte): (r: Parser)
    requires Wellformed(p) && !p.bulk
    ensures Wellformed(r) && (p.stage == BlockData ==> !r.bulk)
  {
    if p.inPrimary && LengthKnown(p.stage) && p.primaryRemaining == 0 then p.(status := Error)
    else
      StageByte(if p.inPrimary && p.primaryRemaining != 0 then p.(primaryRemaining := p.primaryRemaining - 1) else p, b)
  }

  /** The end of a bulk read: the block's data is there, and a zero octet makes
      the parser go on. */
  function BulkDone(p: Parser, data: seq<byte>): (r: Parser)
    requires Wellformed(p) && p.bulk
    ensures Wellformed(r) && !r.bulk
  {
    ReadByte(p.(bulk := false, content := WithLastBlock(p.content, LastBlockOf(p.content).(data := data))), 0)
  }

  // ---- Buffers

  /** `bundle6_parser_read`: the parser after a buffer and what it left of it. A
      bulk read is done when the buffer holds all of it, and left to the caller
      otherwise. */
  function Consume(p: Parser, buffer: seq<byte>): (r: (Parser, seq<byte>))
    requires Wellformed(p)
    ensures Wellformed(r.0)
    decreases |buffer|, if p.bulk then 1 else 0
  {
    if buffer == [] || p.status != Good then (p, buffer)
    else if p.bulk then
      if p.nextBytes > |buffer| then (p, buffer)
      else Consume(BulkDone(p, buffer[..p.nextBytes]), buffer[p.nextBytes..])
    else Consume(ReadByte(p, buffer[0]), buffer[1..])
  }

  /** The rest of a buffer presented again in front of more octets gives what one
      buffer would have given. */
  lemma {:induction false} ConsumeSplit(p: Parser, x: seq<byte>, y: seq<byte>)
    requires Wellformed(p)
    ensures var (q, rest) := Consume(p, x); Consume(p, x + y) == Consume(q, rest + y)
    decreases |x|, if p.bulk then 1 else 0
  {
    hide ReadByte, BulkDone;
    if x == [] || p.status != Good {
    } else if p.bulk {
      if p.nextBytes <= |x| {
        var n := p.nextBytes;
        assert (x + y)[..n] == x[..n] && (x + y)[n..] == x[n..] + y;
        ConsumeSplit(BulkDone(p, x[..n]), x[n..], y);
      }
    } else {
      assert (x + y)[0] == x[0] && (x + y)[1..] == x[1..] + y;
      ConsumeSplit(ReadByte(p, x[0]), x[1..], y);
    }
  }

  /** Chunks as they arrive, each behind what was left over before. */
  function Drive(p: Parser, pending: seq<byte>, chunks: seq<seq<byte>>): (Parser, seq<byte>)
    requires Wellformed(p)
    decreases chunks
  {
    if chunks == [] then (p, pending)
    else
      var (q, rest) := Consume(p, pending + chunks[0]);
      Drive(q, rest, chunks[1..])
  }

  /** How a stream is cut into chunks does not matter. */
  lemma {:induction false} ChunkingDoesNotMatter(p: Parser, chunks: seq<seq<byte>>)
    requires Wellformed(p)
    ensures Drive(p, [], chunks) == Consume(p, Concat(chunks))
  {
    ChunkingFrom(p, [], chunks);
    assert [] + Concat(chunks) == Concat(chunks);
  }

  lemma {:induction false} ChunkingFrom(p: Parser, pending: seq<byte>, chunks: seq<seq<byte>>)
    requires Wellformed(p) && Consume(p, pending) == (p, pending)
    ensures Drive(p, pending, chunks) == Consume(p, pending + Concat(chunks))
    decreases chunks
  {
    hide Consume;
    if chunks == [] {
      assert pending + [] == pending;
    } else {
      var s := pending + chunks[0];
      var (q, rest) := Consume(p, s);
      ConsumeSplit(p, s, Concat(chunks[1..]));
      ConsumeStops(p, s);
      ChunkingFrom(q, rest, chunks[1..]);
      assert pending + (chunks[0] + Concat(chunks[1..])) == s + Concat(chunks[1..]);
    }
  }

  lemma {:induction false} ConsumeStops(p: Parser, s: seq<byte>)
    requires Wellformed(p)
    ensures var (q, rest) := Consume(p, s); Consume(q, rest) == (q, rest)
    decreases |s|, if p.bulk then 1 else 0
  {
    hide ReadByte, BulkDone;
    if s != [] && p.status == Good {
      if p.bulk {
        if p.nextBytes <= |s| {
          ConsumeStops(BulkDone(p, s[..p.nextBytes]), s[p.nextBytes..]);
        }
      } else {
        ConsumeStops(ReadByte(p, s[0]), s[1..]);
      }
    }
  }

  /** The caller also ends a bulk read of no octets. */
  function Settled(r: (Parser, seq<byte>)): (Parser, seq<byte>)
    requires Wellformed(r.0)
  {
    if r.0.status == Good && r.0.bulk && r.0.nextBytes == 0 then (BulkDone(r.0, []), r.1) else r
  }

  function Parse(p: Parser, s: seq<byte>): (Parser, seq<byte>)
    requires Wellformed(p)
  {
    Settled(Consume(p, s))
  }
}
