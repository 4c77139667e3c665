/** Cutting BPv7 bundles (components/ud3tn/bundle_fragmenter.c,
    components/bundle7/fragment.c), section 5.8 of RFC 9171. */
module Fragmentation {
  import opened Octets
  import opened Cbor
  import opened Bundle7

  // ---- Specification on bundle contents

  /** `bundlefragmenter_create_new_fragment` without a payload block, followed
      by `bundle_copy_headers` of the prototype's fields. */
  function NewFragment(proto: BundleData): BundleData
    requires proto.payload < |proto.blocks|
  {
    proto.(procFlags := SetFragmentFlag(proto.procFlags),
           totalAduLength := if IsFragment(proto.procFlags) then proto.totalAduLength
                             else |Payload(proto)|,
           blocks := [], payload := 0)
  }

  function Recalculated(d: BundleData): BundleData {
    d.(primaryLength := PrimarySize(d) % TWO_16)
  }

  /** First position of a payload block, or the length of the list. */
  function FindPayload(blocks: seq<Block>, from: nat): (r: nat)
    requires from <= |blocks|
    ensures from <= r <= |blocks|
    ensures r < |blocks| ==> blocks[r].kind == PAYLOAD
    ensures forall i :: from <= i < r ==> blocks[i].kind != PAYLOAD
    decreases |blocks| - from
  {
    if from < |blocks| && blocks[from].kind != PAYLOAD then FindPayload(blocks, from + 1) else from
  }

  /** `bundlefragmenter_initialize_first_fragment` */
  function FirstFragment(input: BundleData): (r: BundleData)
    requires input.payload < |input.blocks|
    ensures OnePayload(input) ==> r.payload < |r.blocks|
  {
    assert OnePayload(input) ==> input.blocks[input.payload].kind == PAYLOAD;
    Recalculated(NewFragment(input).(blocks := input.blocks, payload := FindPayload(input.blocks, 0)))
  }

  function Replicated(blocks: seq<Block>): seq<Block> {
    if blocks == [] then []
    else
      var last := blocks[|blocks| - 1];
      Replicated(blocks[..|blocks| - 1])
      + (if MustReplicate(last) && last.kind != PAYLOAD then [last] else [])
  }

  /** The payload block of a remainder: number 1, no flags and no CRC. */
  function RemainderPayload(data: seq<byte>): Block {
    Block(PAYLOAD, 1, 0, CrcNone, data)
  }

  datatype CutResult = BoundTooLow | NotNeeded | Cut(first: BundleData, rest: BundleData)

  function FirstLength(w: BundleData, firstMax: nat): nat
    requires w.payload < |w.blocks| && FirstMinSize(w) <= firstMax
  {
    (firstMax - FirstMinSize(w)) % TWO_32
  }

  function AduLength(w: BundleData): nat
    requires w.payload < |w.blocks|
  {
    if IsFragment(w.procFlags) then w.totalAduLength else |Payload(w)|
  }

  /** The working bundle, shortened to the first `n` octets of its payload. */
  function Shortened(w: BundleData, n: nat): BundleData
    requires w.payload < |w.blocks| && n < |Payload(w)|
  {
    w.(procFlags := SetFragmentFlag(w.procFlags), totalAduLength := AduLength(w),
       blocks := w.blocks[w.payload := w.blocks[w.payload].(data := Payload(w)[..n])])
  }

  /** The remainder: the replicated blocks and the rest of the payload. */
  function Remainder(w: BundleData, n: nat): BundleData
    requires w.payload < |w.blocks| && n < |Payload(w)|
  {
    var rep := Replicated(w.blocks);
    NewFragment(w).(fragmentOffset := (w.fragmentOffset + n) % TWO_32,
                    totalAduLength := AduLength(w),
                    blocks := rep + [RemainderPayload(Payload(w)[n..])],
                    payload := |rep|)
  }

  /** `bundle7_fragment_bundle` */
  function FragmentBundleSpec(w: BundleData, firstMax: nat): (r: CutResult)
    requires w.payload < |w.blocks|
    ensures r.Cut? ==> r.first.payload < |r.first.blocks| && r.rest.payload < |r.rest.blocks|
  {
    if FirstMinSize(w) > firstMax then BoundTooLow
    else
      var n := FirstLength(w, firstMax);
      if n >= |Payload(w)| then NotNeeded
      else Cut(Recalculated(Shortened(w, n)), Recalculated(Remainder(w, n)))
  }

  // ---- The operations

  method InitializeFirstFragment(input: Bundle) returns (result: Bundle?)
    requires input.payload < |input.blocks|
    ensures result == null <==> forall i :: 0 <= i < |input.blocks| ==> input.blocks[i].kind != PAYLOAD
    ensures result != null ==> fresh(result) && result.Data() == FirstFragment(input.Data())
  {
    var fragment := new Bundle(NewFragment(input.Data()));
    fragment.blocks := input.blocks;
    var i := 0;
    while i < |fragment.blocks| && fragment.blocks[i].kind != PAYLOAD
      invariant i <= |input.blocks| && fragment.blocks == input.blocks
      invariant FindPayload(input.blocks, 0) == FindPayload(input.blocks, i)
      invariant forall k :: 0 <= k < i ==> input.blocks[k].kind != PAYLOAD
      invariant fragment.Data() == NewFragment(input.Data()).(blocks := input.blocks)
    {
      i := i + 1;
    }
    if i == |fragment.blocks| {
      return null;
    }
    fragment.payload := i;
    fragment.RecalculatePrimaryLength();
    result := fragment;
  }

  /** The block list of a remainder, in the order of the original. */
  method ReplicateBlocks(blocks: seq<Block>) returns (replicated: seq<Block>)
    ensures replicated == Replicated(blocks)
  {
    replicated := [];
    for i := 0 to |blocks|
      invariant replicated == Replicated(blocks[..i])
    {
      assert blocks[..i + 1][..i] == blocks[..i];
      if MustReplicate(blocks[i]) && blocks[i].kind != PAYLOAD {
        replicated := replicated + [blocks[i]];
      }
    }
    assert blocks[..|blocks|] == blocks;
  }

  method FragmentBundle(working: Bundle, firstMax: nat) returns (r: Bundle?)
    requires working.payload < |working.blocks|
    modifies working
    ensures match FragmentBundleSpec(old(working.Data()), firstMax)
            case BoundTooLow => r == null && working.Data() == old(working.Data())
            case NotNeeded => r == working && working.Data() == old(working.Data())
            case Cut(first, rest) =>
              r != null && fresh(r) && working.Data() == first && r.Data() == rest
  {
    var firstMin := working.GetFirstFragmentMinSize();
    if firstMin > firstMax {
      return null;
    }
    var firstLength := (firstMax - firstMin) % TWO_32;
    if firstLength >= |working.blocks[working.payload].data| {
      return working;
    }
    r := SplitPayload(working, firstLength);
  }

  /** The second half of `bundle7_fragment_bundle`: builds the remainder and
      shortens the working bundle. */
  method SplitPayload(working: Bundle, n: nat) returns (remainder: Bundle)
    requires working.payload < |working.blocks| && n < |working.blocks[working.payload].data|
    modifies working
    ensures fresh(remainder)
    ensures working.Data() == Recalculated(Shortened(old(working.Data()), n))
    ensures remainder.Data() == Recalculated(Remainder(old(working.Data()), n))
  {
    var data := working.blocks[working.payload].data;
    remainder := new Bundle(NewFragment(working.Data()));
    var replicated := ReplicateBlocks(working.blocks);
    remainder.blocks := replicated + [RemainderPayload(data[n..])];
    remainder.payload := |replicated|;

    if !IsFragment(working.procFlags) {
      working.totalAduLength := |data|;
    }
    working.blocks := working.blocks[working.payload := working.blocks[working.payload].(data := data[..n])];
    remainder.fragmentOffset := (working.fragmentOffset + n) % TWO_32;
    remainder.totalAduLength := working.totalAduLength;
    working.procFlags := SetFragmentFlag(working.procFlags);
    remainder.procFlags := SetFragmentFlag(remainder.procFlags);
    assert working.Data() == Shortened(old(working.Data()), n);
    assert remainder.Data() == Remainder(old(working.Data()), n);
    working.RecalculatePrimaryLength();
    remainder.RecalculatePrimaryLength();
  }

  // ---- What a cut yields

  lemma FlagKeepsHeadSize(procFlags: nat)
    ensures UintSize(SetFragmentFlag(procFlags)) == UintSize(procFlags)
    ensures IsFragment(SetFragmentFlag(procFlags))
  {
  }

  lemma {:induction false} ReplicatedKinds(blocks: seq<Block>)
    ensures forall b :: b in Replicated(blocks) ==> b in blocks && MustReplicate(b) && b.kind != PAYLOAD
  {
    if blocks != [] {
      ReplicatedKinds(blocks[..|blocks| - 1]);
    }
  }

  lemma {:induction false} ReplicatedFixed(blocks: seq<Block>)
    requires forall b :: b in blocks ==> MustReplicate(b) && b.kind != PAYLOAD
    ensures Replicated(blocks) == blocks
  {
    if blocks != [] {
      var init, last := blocks[..|blocks| - 1], blocks[|blocks| - 1];
      ReplicatedFixed(init);
      assert last in blocks && blocks == init + [last];
    }
  }

  lemma {:induction false} ReplicatedUpdatePayload(blocks: seq<Block>, i: nat, b: Block)
    requires i < |blocks| && blocks[i].kind == PAYLOAD && b.kind == PAYLOAD
    ensures Replicated(blocks[i := b]) == Replicated(blocks)
  {
    var last := |blocks| - 1;
    if i == last {
      assert blocks[i := b][..last] == blocks[..last];
    } else {
      ReplicatedUpdatePayload(blocks[..last], i, b);
      assert blocks[i := b][..last] == blocks[..last][i := b];
    }
  }

  /** The last-fragment minimum pays for the replicated blocks and one payload
      header. */
  lemma {:induction false} LastMinOfReplicated(blocks: seq<Block>)
    ensures Total(blocks, LastMinBlock)
         == Total(Replicated(blocks), BlockSize) + Total(blocks, PayloadPart)
  {
    if blocks != [] {
      var init, last := blocks[..|blocks| - 1], blocks[|blocks| - 1];
      LastMinOfReplicated(init);
      if MustReplicate(last) && last.kind != PAYLOAD {
        TotalSnoc(Replicated(init), last, BlockSize);
      } else {
        assert Replicated(blocks) == Replicated(init);
      }
    }
  }

  /** The fragment a bundle starts as keeps its minimum size, so the router's
      estimate for the unfragmented bundle is exact for the first cut. */
  lemma FirstFragmentMinSize(d: BundleData)
    requires WellFormed(d)
    ensures WellFormed(FirstFragment(d)) && IsFragment(FirstFragment(d).procFlags)
    ensures FirstMinSize(FirstFragment(d)) == FirstMinSize(d)
    ensures FirstFragment(d).payload == d.payload
  {
    FlagKeepsHeadSize(d.procFlags);
  }

  /** Every cut of a fragment: both parts are well formed, they split the
      payload, and the first part serialises to no more than the bound. */
  lemma CutKeepsBound(w: BundleData, firstMax: nat)
    requires WellFormed(w) && IsFragment(w.procFlags)
    requires FirstMinSize(w) <= firstMax < TWO_32
    ensures match FragmentBundleSpec(w, firstMax)
            case BoundTooLow => false
            case NotNeeded =>
              SerializedSize(w) <= firstMax && |Payload(w)| <= firstMax - FirstMinSize(w)
            case Cut(first, rest) =>
              && WellFormed(first) && WellFormed(rest)
              && IsFragment(first.procFlags) && IsFragment(rest.procFlags)
              && first.header == rest.header == w.header
              && first.totalAduLength == rest.totalAduLength == w.totalAduLength
              && first.fragmentOffset == w.fragmentOffset
              && rest.fragmentOffset == w.fragmentOffset + |Payload(first)|
              && |Payload(first)| == firstMax - FirstMinSize(w) < |Payload(w)|
              && Payload(first) + Payload(rest) == Payload(w)
              && first.payload == w.payload
              && SerializedSize(first) <= firstMax
              && rest.blocks == Replicated(w.blocks) + [RemainderPayload(Payload(rest))]
              && rest.payload == |Replicated(w.blocks)|
              && first.procFlags == rest.procFlags == w.procFlags
  {
    SizeWithinFirstMin(w);
    var n := FirstLength(w, firstMax);
    assert n == firstMax - FirstMinSize(w);
    if n < |Payload(w)| {
      ShortenedBound(w, n);
      RemainderWellFormed(w, n);
    }
  }

  lemma ShortenedBound(w: BundleData, n: nat)
    requires WellFormed(w) && IsFragment(w.procFlags) && n < |Payload(w)|
    ensures WellFormed(Recalculated(Shortened(w, n)))
    ensures Payload(Recalculated(Shortened(w, n))) == Payload(w)[..n]
    ensures SerializedSize(Recalculated(Shortened(w, n))) <= FirstMinSize(w) + n
  {
    var first := Recalculated(Shortened(w, n));
    SizeWithinFirstMin(first);
    var b := w.blocks[w.payload];
    TotalUpdate(w.blocks, w.payload, first.blocks[w.payload], FirstMinBlock);
    UintSizeMonotone(n, |b.data|);
  }

  lemma RemainderWellFormed(w: BundleData, n: nat)
    requires WellFormed(w) && IsFragment(w.procFlags) && n < |Payload(w)|
    ensures WellFormed(Recalculated(Remainder(w, n)))
    ensures Payload(Remainder(w, n)) == Payload(w)[n..]
    ensures Remainder(w, n).fragmentOffset == w.fragmentOffset + n
  {
    ReplicatedKinds(w.blocks);
    assert OnePayload(Recalculated(Remainder(w, n)));
  }
}
