/** BPv6 bundles without a dictionary (RFC 6260), whose endpoint IDs are numbers:
    which of them the parser accepts. */
module Bundle6Cbhe {
  import opened Octets
  import opened Bundle6
  import opened Bundle6Parser
  import opened Bundle6RoundTrip
  import Sdnv

  /** The fields of a primary block; `refs` are node and service number of
      destination, source, report-to and custodian, times are in seconds. */
  datatype Header = Header(version: byte, flags: nat, length: nat, refs: seq<nat>,
                           created: nat, sequence: nat, lifetime: nat, offset: nat, aduLength: nat)

  predicate HeaderInRange(h: Header) {
    && h.flags < TWO_32 && h.length < TWO_16
    && |h.refs| == 8 && (forall i :: 0 <= i < 8 ==> h.refs[i] < TWO_64)
    && h.created < TWO_64 && h.sequence < TWO_64 && h.lifetime < TWO_64
    && h.offset < TWO_32 && h.aduLength < TWO_32
  }

  /** Up to the dictionary length, which is zero. */
  function Numbers(h: Header): seq<nat> {
    h.refs + [h.created, h.sequence, h.lifetime, 0]
  }

  function FragmentFields(h: Header): seq<nat> {
    if IsFragment(h.flags) then [h.offset, h.aduLength] else []
  }

  function CbheWire(h: Header, blocks: seq<Block>): seq<byte> {
    [h.version] + Sdnvs([h.flags, h.length]) + Sdnvs(Numbers(h)) + Sdnvs(FragmentFields(h)) + BlocksWire(blocks)
  }

  /** The block length covers what is left of the primary block, the last block is
      marked, and the size limit is kept. */
  predicate Acceptable(h: Header, blocks: seq<Block>, bundleSize: nat) {
    && HeaderInRange(h)
    && h.length >= |Sdnvs(Numbers(h))| + |Sdnvs(FragmentFields(h))|
    && LastMarked(blocks) && (forall i :: 0 <= i < |blocks| ==> Readable(blocks[i]))
    && bundleSize + DataSize(blocks) <= MAX_SIZE
  }

  /** The bundle these octets stand for. */
  function Meant(h: Header, blocks: seq<Block>): Bundle
    requires |h.refs| == 8
  {
    Bundle(h.version, h.flags, h.length,
           Some(CbheEid(h.refs[0], h.refs[1])), Some(CbheEid(h.refs[2], h.refs[3])),
           Some(CbheEid(h.refs[4], h.refs[5])), Some(CbheEid(h.refs[6], h.refs[7])),
           h.created * 1000 % TWO_64, h.sequence, h.lifetime * 1000 % TWO_64, 0, 0, blocks)
  }

  // ---- The header, part by part

  function Opened(h: Header): Bundle {
    EMPTY_BUNDLE.(version := h.version, flags := h.flags, primaryLength := h.length)
  }

  lemma OpeningRead(h: Header, size: nat, rest: seq<byte>)
    requires h.flags < TWO_32 && h.length < TWO_16
    ensures Consume(Start(size), [h.version] + (Sdnvs([h.flags, h.length]) + rest))
            == Consume(InHeader(EidRef(0), h.length, Opened(h), NO_REFS, size), rest)
  {
    hide Consume, Sdnvs;
    var first := EMPTY_BUNDLE.(version := h.version);
    VersionRead(first, size, Sdnvs([h.flags, h.length]) + rest);
    TwoNumbers(h.flags, h.length, rest);
    var p := InHeader(ProcFlags, 0, first, NO_REFS, size);
    SdnvRead(p, Sdnv.U32, h.flags, Sdnv.Encode(h.length) + rest);
    var q := InHeader(BlockLength, 0, first.(flags := h.flags), NO_REFS, size);
    assert After(p, Sdnv.U32, h.flags) == q;
    SdnvRead(q, Sdnv.U16, h.length, rest);
    assert After(q, Sdnv.U16, h.length) == InHeader(EidRef(0), h.length, Opened(h), NO_REFS, size);
  }

  lemma SecondsRead(bundle: Bundle, refs: seq<nat>, size: nat, remaining: nat, t: nat, rest: seq<byte>)
    requires |refs| == 8 && t < TWO_64 && remaining >= Sdnv.GroupCount(t)
    ensures Consume(InHeader(Timestamp, remaining, bundle, refs, size), Sdnv.Encode(t) + rest)
            == Consume(InHeader(SequenceNum, remaining - Sdnv.GroupCount(t),
                                bundle.(creationMs := t * 1000 % TWO_64), refs, size), rest)
    ensures Consume(InHeader(Lifetime, remaining, bundle, refs, size), Sdnv.Encode(t) + rest)
            == Consume(InHeader(DictLength, remaining - Sdnv.GroupCount(t),
                                bundle.(lifetimeMs := t * 1000 % TWO_64), refs, size), rest)
  {
    hide Consume, Sdnv.GroupCount;
    var p, q := InHeader(Timestamp, remaining, bundle, refs, size), InHeader(Lifetime, remaining, bundle, refs, size);
    var n := remaining - Sdnv.GroupCount(t);
    SdnvRead(p, Sdnv.U64, t, rest);
    assert After(p, Sdnv.U64, t) == InHeader(SequenceNum, n, bundle.(creationMs := t * 1000 % TWO_64), refs, size);
    SdnvRead(q, Sdnv.U64, t, rest);
    assert After(q, Sdnv.U64, t) == InHeader(DictLength, n, bundle.(lifetimeMs := t * 1000 % TWO_64), refs, size);
  }

  /** The parser after a dictionary length of zero: it has the endpoint IDs, and
      an SDNV state that is done. */
  function WithoutDictionary(remaining: nat, bundle: Bundle, refs: seq<nat>, size: nat): Parser
    requires |refs| == 8
  {
    var fragment := IsFragment(bundle.flags);
    Parser(Good, if fragment then FragmentOffset else BlockType, fragment, remaining, Sdnv.State(Sdnv.Done, 1), false,
           0, None, WithEids(Content(bundle, refs, (0, 0), 0, [], 0, 0, size, false, false)))
  }

  lemma NoDictionaryRead(bundle: Bundle, refs: seq<nat>, size: nat, remaining: nat, rest: seq<byte>)
    requires |refs| == 8 && remaining >= 1
    ensures Consume(InHeader(DictLength, remaining, bundle, refs, size), Sdnv.Encode(0) + rest)
            == Consume(WithoutDictionary(remaining - 1, bundle, refs, size), rest)
  {
    hide Consume, WithEids, IsFragment;
    var p := InHeader(DictLength, remaining, bundle, refs, size);
    assert Sdnv.GroupCount(0) == 1;
    SdnvRead(p, Sdnv.U16, 0, rest);
    assert After(p, Sdnv.U16, 0) == WithoutDictionary(remaining - 1, bundle, refs, size);
  }

  function Timed(h: Header): Bundle {
    Opened(h).(creationMs := h.created * 1000 % TWO_64, sequence := h.sequence,
               lifetimeMs := h.lifetime * 1000 % TWO_64)
  }

  lemma CbheNumbersRead(h: Header, size: nat, rest: seq<byte>)
    requires HeaderInRange(h) && h.length >= |Sdnvs(Numbers(h))|
    ensures Consume(InHeader(EidRef(0), h.length, Opened(h), NO_REFS, size), Sdnvs(Numbers(h)) + rest)
            == Consume(WithoutDictionary(h.length - |Sdnvs(Numbers(h))|, Timed(h), h.refs, size), rest)
  {
    hide Consume, Sdnvs, Sdnv.Encode, Sdnv.GroupCount, InHeader, WithoutDictionary;
    var times := [h.created, h.sequence, h.lifetime, 0];
    SdnvsAppend(h.refs, times);
    assert Sdnvs(Numbers(h)) + rest == Sdnvs(h.refs) + (Sdnvs(times) + rest);
    assert h.refs[0..] == h.refs && NO_REFS[..0] == h.refs[..0];
    RefsRead(Opened(h), NO_REFS, h.refs, size, h.length, 0, Sdnvs(times) + rest);
    Sdnvs4(h.created, h.sequence, h.lifetime, 0, rest);
    assert Sdnv.GroupCount(0) == 1 by { OneGroup(0); }
    var tail4 := Sdnv.Encode(0) + rest;
    var tail3 := Sdnv.Encode(h.lifetime) + tail4;
    var tail2 := Sdnv.Encode(h.sequence) + tail3;
    var r := h.length - |Sdnvs(h.refs)|;
    SecondsRead(Opened(h), h.refs, size, r, h.created, tail2);
    var r2, b2 := r - Sdnv.GroupCount(h.created), Opened(h).(creationMs := h.created * 1000 % TWO_64);
    SequenceRead(b2, h.refs, size, r2, h.sequence, tail3);
    var r3, b3 := r2 - Sdnv.GroupCount(h.sequence), b2.(sequence := h.sequence);
    SecondsRead(b3, h.refs, size, r3, h.lifetime, tail4);
    var r4, b4 := r3 - Sdnv.GroupCount(h.lifetime), b3.(lifetimeMs := h.lifetime * 1000 % TWO_64);
    NoDictionaryRead(b4, h.refs, size, r4, rest);
  }

  lemma OneGroup(n: nat)
    requires n < 128
    ensures Sdnv.GroupCount(n) == 1 && Sdnv.Encode(n) == [n]
  {
  }

  /** Everything up to the dictionary length. */
  lemma HeaderRead(h: Header, size: nat, rest: seq<byte>)
    requires HeaderInRange(h) && h.length >= |Sdnvs(Numbers(h))|
    ensures Consume(Start(size), [h.version] + Sdnvs([h.flags, h.length]) + Sdnvs(Numbers(h)) + rest)
            == Consume(WithoutDictionary(h.length - |Sdnvs(Numbers(h))|, Timed(h), h.refs, size), rest)
  {
    hide Consume, Sdnvs, Numbers, WithoutDictionary;
    var tail := Sdnvs(Numbers(h)) + rest;
    assert [h.version] + Sdnvs([h.flags, h.length]) + Sdnvs(Numbers(h)) + rest
        == [h.version] + (Sdnvs([h.flags, h.length]) + tail);
    OpeningRead(h, size, tail);
    CbheNumbersRead(h, size, rest);
  }

  // ---- Fragments and others

  /** An SDNV that is done takes no further octet. */
  lemma FragmentOctetFails(remaining: nat, bundle: Bundle, refs: seq<nat>, size: nat, b: byte)
    requires |refs| == 8 && IsFragment(bundle.flags)
    ensures var p := WithoutDictionary(remaining, bundle, refs, size);
      Wellformed(p) && ReadByte(p, b).status == Error && ReadByte(p, b).sent == None
  {
    hide EidAt, IsFragment, DictByte, Load, Store, SdnvDone;
  }

  lemma FragmentFails(remaining: nat, bundle: Bundle, refs: seq<nat>, size: nat, rest: seq<byte>)
    requires |refs| == 8 && IsFragment(bundle.flags) && rest != []
    ensures var p := WithoutDictionary(remaining, bundle, refs, size);
      Wellformed(p) && Parse(p, rest).0.status == Error && Parse(p, rest).0.sent == None
  {
    hide WithoutDictionary, ReadByte, BulkDone, Wellformed;
    var p := WithoutDictionary(remaining, bundle, refs, size);
    FragmentOctetFails(remaining, bundle, refs, size, rest[0]);
    Fresh(remaining, bundle, refs, size);
    assert Consume(p, rest) == Consume(ReadByte(p, rest[0]), rest[1..]);
  }

  lemma Fresh(remaining: nat, bundle: Bundle, refs: seq<nat>, size: nat)
    requires |refs| == 8
    ensures var p := WithoutDictionary(remaining, bundle, refs, size);
      Wellformed(p) && p.status == Good && !p.bulk
  {
    hide EidAt, IsFragment;
  }

  lemma EidsMeant(h: Header, remaining: nat, size: nat)
    requires |h.refs| == 8 && !IsFragment(h.flags)
    ensures AtBlock(WithoutDictionary(remaining, Timed(h), h.refs, size), Meant(h, []), size)
  {
    hide IsFragment, CbheEid;
  }

  lemma FieldsWritten(h: Header)
    requires IsFragment(h.flags)
    ensures Sdnvs(FragmentFields(h)) != []
  {
    hide IsFragment;
    TwoNumbers(h.offset, h.aduLength, []);
    assert Sdnvs([h.offset, h.aduLength]) + [] == Sdnvs([h.offset, h.aduLength]);
  }

  /** What becomes of a bundle without a dictionary, whatever blocks it has and
      whatever follows: it is sent with the endpoint IDs its numbers stand for,
      unless it is a fragment. */
  lemma DictionarylessParsed(h: Header, blocks: seq<Block>, bundleSize: nat, rest: seq<byte>)
    requires Acceptable(h, blocks, bundleSize)
    ensures var (p, left) := Parse(Start(bundleSize), CbheWire(h, blocks) + rest);
      if IsFragment(h.flags) then p.status == Error && p.sent == None
      else left == rest && p.status == Done && p.sent == if HasPayload(blocks) then Some(Meant(h, blocks)) else None
  {
    hide Consume, Sdnvs, BlocksWire, Readable, LastMarked, HasPayload, Settled, HeaderInRange, WithoutDictionary,
         IsFragment,
         Numbers, CbheEid, BulkDone, FragmentFields;
    var tail := Sdnvs(FragmentFields(h)) + (BlocksWire(blocks) + rest);
    assert CbheWire(h, blocks) + rest == [h.version] + Sdnvs([h.flags, h.length]) + Sdnvs(Numbers(h)) + tail;
    EightRefs(h);
    HeaderRead(h, bundleSize, tail);
    var remaining := h.length - |Sdnvs(Numbers(h))|;
    if IsFragment(h.flags) {
      FieldsWritten(h);
      FragmentFails(remaining, Timed(h), h.refs, bundleSize, tail);
    } else {
      NoFields(h, BlocksWire(blocks) + rest);
      EidsMeant(h, remaining, bundleSize);
      BlocksRead(WithoutDictionary(remaining, Timed(h), h.refs, bundleSize), blocks, rest);
      assert [] + blocks == blocks;
    }
  }

  lemma EightRefs(h: Header)
    requires HeaderInRange(h)
    ensures |h.refs| == 8
  {
  }

  lemma NoFields(h: Header, rest: seq<byte>)
    requires !IsFragment(h.flags)
    ensures Sdnvs(FragmentFields(h)) + rest == rest
  {
    hide IsFragment;
    NoSdnvs(rest);
  }

  /** It is sent if and only if it is not a fragment. */
  lemma DictionarylessSentExactly(h: Header, blocks: seq<Block>, bundleSize: nat, rest: seq<byte>)
    requires Acceptable(h, blocks, bundleSize) && HasPayload(blocks)
    ensures Parse(Start(bundleSize), CbheWire(h, blocks) + rest).0.sent == Some(Meant(h, blocks))
            <==> !IsFragment(h.flags)
  {
    hide *;
    DictionarylessParsed(h, blocks, bundleSize, rest);
  }

  /** A fragment of one octet from ipn:1.1 to ipn:2.1, which is refused. */
  lemma FragmentRefused()
    ensures var p := Parse(Start(0), [6, 1, 14, 2, 1, 1, 1, 1, 1, 1, 1, 0, 0, 0, 0, 0, 1, 1, 8, 1, 42]).0;
      p.status == Error && p.sent == None
  {
    hide Consume, Settled, IsFragment, CbheEid, CbheWire, Acceptable;
    FragmentWire();
    FragmentFlag();
    var wire := CbheWire(FRAGMENT, [LAST]);
    assert wire + [] == wire;
    DictionarylessParsed(FRAGMENT, [LAST], 0, []);
  }

  lemma FragmentFlag()
    ensures IsFragment(1)
  {
  }

  const FRAGMENT := Header(6, 1, 14, [2, 1, 1, 1, 1, 1, 1, 1], 0, 0, 0, 0, 1)
  const LAST := Block(1, 8, [], 1, [42])

  lemma FragmentWire()
    ensures CbheWire(FRAGMENT, [LAST]) == [6, 1, 14, 2, 1, 1, 1, 1, 1, 1, 1, 0, 0, 0, 0, 0, 1, 1, 8, 1, 42]
    ensures Acceptable(FRAGMENT, [LAST], 0)
  {
    hide Sdnvs, BlocksWire, DataSize, IsFragment, LastMarked, Readable;
    var numbers := [2, 1, 1, 1, 1, 1, 1, 1, 0, 0, 0, 0];
    assert Numbers(FRAGMENT) == numbers;
    assert FragmentFields(FRAGMENT) == [0, 1] by { FragmentFlag(); }
    SmallSdnvs([1, 14]);
    SmallSdnvs(numbers);
    SmallSdnvs([0, 1]);
    assert Sdnvs([1, 14]) == [1, 14];
    assert Sdnvs(numbers) == numbers;
    assert Sdnvs([0, 1]) == [0, 1];
    LastWire();
  }

  lemma LastWire()
    ensures BlocksWire([LAST]) == [1, 8, 1, 42] && DataSize([LAST]) == 1
    ensures LastMarked([LAST]) && forall i :: 0 <= i < |[LAST]| ==> Readable([LAST][i])
  {
    hide Sdnvs;
    SmallSdnvs([8, 1]);
    assert Sdnvs([8, 1]) == [8, 1];
    assert [LAST][..0] == [] && [LAST][1..] == [];
  }

  lemma {:induction false} SmallSdnvs(values: seq<nat>)
    requires forall i :: 0 <= i < |values| ==> values[i] < 128
    ensures |Sdnvs(values)| == |values| && forall i :: 0 <= i < |values| ==> Sdnvs(values)[i] == values[i]
  {
    hide Sdnv.Encode;
    if values != [] {
      OneGroup(values[0]);
      SmallSdnvs(values[1..]);
    }
  }
}
