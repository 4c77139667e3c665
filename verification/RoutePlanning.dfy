/** Planning payload shares and splitting a bundle along the plan
    (components/ud3tn/router.c, components/ud3tn/router_task_legacy.c). */
module RoutePlanning {
  import opened Octets
  import opened Cbor
  import opened Bundle7
  import opened Fragmentation

  const ROUTER_MAX_FRAGMENTS: nat := 10

  /** The bounds `router_get_first_route_frag` plans with: the largest allowed
      fragment, the minimum sizes of first, middle and last fragments, and the
      configured least payload of a fragment. */
  datatype Limits = Limits(maxFragment: nat, first: nat, mid: nat, last: nat, minPayload: nat)

  // ---- Planning

  function PlanFrom(l: Limits, remaining: nat, taken: nat, next: nat): Option<seq<nat>>
    requires next <= l.maxFragment && l.mid <= l.maxFragment && l.last <= l.maxFragment
    decreases ROUTER_MAX_FRAGMENTS - taken
  {
    if remaining == 0 then Some([])
    else if taken >= ROUTER_MAX_FRAGMENTS then None
    else if l.maxFragment - next < Min(remaining, l.minPayload) then None
    else if remaining <= l.maxFragment - l.last then Some([remaining])
    else
      var share := Min(remaining, l.maxFragment - next);
      Prefixed([share], PlanFrom(l, remaining - share, taken + 1, l.mid))
  }

  lemma PlanStep(l: Limits, remaining: nat, taken: nat, next: nat)
    requires next <= l.maxFragment && l.mid <= l.maxFragment && l.last <= l.maxFragment
    ensures remaining == 0 ==> PlanFrom(l, remaining, taken, next) == Some([])
    ensures remaining > 0 ==>
      PlanFrom(l, remaining, taken, next) ==
      (if taken >= ROUTER_MAX_FRAGMENTS || l.maxFragment - next < Min(remaining, l.minPayload) then None
       else if remaining <= l.maxFragment - l.last then Some([remaining])
       else
         var share := Min(remaining, l.maxFragment - next);
         Prefixed([share], PlanFrom(l, remaining - share, taken + 1, l.mid)))
  {
  }

  /** The planned payload shares; absent when no plan exists. */
  function Plan(l: Limits, payload: nat): Option<seq<nat>>
    requires l.mid <= l.last
  {
    if l.first > l.maxFragment || l.last > l.maxFragment then None
    else PlanFrom(l, payload, 0, l.first)
  }

  /** The planning loop; an empty result is the source's "no fragments". */
  method PlanShares(l: Limits, payload: nat) returns (shares: seq<nat>)
    requires l.mid <= l.last && l.maxFragment <= INT32_MAX && payload <= INT32_MAX
    ensures match Plan(l, payload) case None => shares == [] case Some(s) => shares == s
  {
    hide PlanFrom;
    shares := [];
    if l.first > l.maxFragment || l.last > l.maxFragment {
      return;
    }
    var remaining: nat, next: nat := payload, l.first;
    PrefixedNothing(PlanFrom(l, remaining, 0, next));
    while remaining != 0 && |shares| < ROUTER_MAX_FRAGMENTS
      invariant next <= l.maxFragment
      invariant Plan(l, payload) == Prefixed(shares, PlanFrom(l, remaining, |shares|, next))
      decreases ROUTER_MAX_FRAGMENTS - |shares|, remaining
    {
      PlanStep(l, remaining, |shares|, next);
      var minPay := Min(remaining, l.minPayload);
      var maxPay := l.maxFragment - next;
      if maxPay < minPay {
        break;
      }
      if remaining <= l.maxFragment - l.last {
        shares := shares + [remaining];
        remaining := 0;
        PlanStep(l, remaining, |shares|, next);
        assert shares + [] == shares;
      } else {
        maxPay := Min(remaining, maxPay);
        PrefixedTwice(shares, [maxPay], PlanFrom(l, remaining - maxPay, |shares| + 1, l.mid));
        shares := shares + [maxPay];
        remaining := remaining - maxPay;
        next := l.mid;
      }
    }
    PlanStep(l, remaining, |shares|, next);
    if remaining != 0 {
      shares := [];
    } else {
      assert shares + [] == shares;
    }
  }

  /** A plan distributes the whole payload: every share but the last fills its
      fragment to the limit, and the last one fits a last fragment. */
  lemma {:induction false} PlanFills(l: Limits, remaining: nat, taken: nat, next: nat)
    requires l.mid == l.last <= next <= l.maxFragment && taken <= ROUTER_MAX_FRAGMENTS
    requires PlanFrom(l, remaining, taken, next).Some?
    ensures var s := PlanFrom(l, remaining, taken, next).value;
      && Sum(s) == remaining
      && taken + |s| <= ROUTER_MAX_FRAGMENTS
      && (forall i :: 0 <= i < |s| - 1 ==> s[i] == l.maxFragment - (if i == 0 then next else l.mid))
      && (s != [] ==> 0 < s[|s| - 1] <= l.maxFragment - l.last)
    decreases ROUTER_MAX_FRAGMENTS - taken
  {
    hide PlanFrom;
    PlanStep(l, remaining, taken, next);
    if remaining != 0 {
      if remaining <= l.maxFragment - l.last {
        assert [remaining][1..] == [];
      } else {
        var share := l.maxFragment - next;
        PlanFills(l, remaining - share, taken + 1, l.mid);
        var rest := PlanFrom(l, remaining - share, taken + 1, l.mid).value;
        assert ([share] + rest)[1..] == rest;
      }
    }
  }

  lemma PlanNeedsRoom(l: Limits, payload: nat)
    requires l.mid <= l.last && l.minPayload > 0
    requires Plan(l, payload).Some? && Plan(l, payload).value != []
    ensures l.maxFragment > l.first
  {
  }

  /** Shares of a plan with two or more fragments are all positive exactly when
      the largest fragment exceeds the first fragment's headers; a positive
      configured minimum payload guarantees that. */
  lemma PlanSharesPositive(l: Limits, payload: nat)
    requires l.mid == l.last <= l.first
    requires Plan(l, payload).Some? && |Plan(l, payload).value| >= 2
    ensures (forall i :: 0 <= i < |Plan(l, payload).value| ==> Plan(l, payload).value[i] > 0)
            <==> l.maxFragment > l.first
    ensures l.minPayload > 0 ==> l.maxFragment > l.first
  {
    hide PlanFrom, Sum;
    PlanFills(l, payload, 0, l.first);
    if l.minPayload > 0 {
      PlanNeedsRoom(l, payload);
    }
    var s := Plan(l, payload).value;
    assert s[0] == l.maxFragment - l.first;
    if l.maxFragment > l.first {
      assert forall i :: 0 <= i < |s| - 1 ==> s[i] >= l.maxFragment - l.first;
    }
  }

  // ---- Splitting along the plan

  /** The 32-bit size a planned fragment may take: the estimate for its position
      plus its planned share. */
  function Allowance(orig: BundleData, shares: seq<nat>, f: nat): nat
    requires orig.payload < |orig.blocks| && f < |shares|
  {
    ((if f == 0 then FirstMinSize(orig) else LastMinSize(orig)) + shares[f]) % TWO_32
  }

  function SplitFrom(orig: BundleData, w: BundleData, shares: seq<nat>, f: nat): Option<seq<BundleData>>
    requires orig.payload < |orig.blocks| && w.payload < |w.blocks| && f < |shares|
    decreases |shares| - f
  {
    if f == |shares| - 1 then Some([w])
    else match FragmentBundleSpec(w, Allowance(orig, shares, f))
      case BoundTooLow => None
      case NotNeeded => Some([w])
      case Cut(first, rest) => Prefixed([first], SplitFrom(orig, rest, shares, f + 1))
  }

  /** `apply_fragmentation`: the fragments to schedule, or none on failure. */
  method ApplyFragmentation(bundle: Bundle, shares: seq<nat>) returns (frags: seq<Bundle>)
    requires OnePayload(bundle.Data()) && shares != []
    ensures fresh(frags)
    ensures match SplitFrom(bundle.Data(), FirstFragment(bundle.Data()), shares, 0)
            case None => frags == []
            case Some(s) => |frags| == |s| && forall i :: 0 <= i < |s| ==> frags[i].Data() == s[i]
  {
    hide FirstMinSize, LastMinSize, FragmentBundleSpec, FirstFragment, Replicated;
    ghost var orig := bundle.Data();
    ghost var goal := SplitFrom(orig, FirstFragment(orig), shares, 0);
    var current := InitializeFirstFragment(bundle);
    assert bundle.blocks[bundle.payload].kind == PAYLOAD;
    if current == null {
      assert false;
    }
    frags := [];
    ghost var done: seq<BundleData> := [];
    PrefixedNothing(goal);
    var f := 0;
    while f < |shares| - 1
      invariant 0 <= f <= |shares| - 1 && |frags| == |done| == f
      invariant fresh(current) && fresh(frags) && current !in frags
      invariant bundle.Data() == orig && current.payload < |current.blocks|
      invariant forall i :: 0 <= i < f ==> frags[i].Data() == done[i]
      invariant goal == Prefixed(done, SplitFrom(orig, current.Data(), shares, f))
    {
      var size: int;
      if f == 0 {
        size := bundle.GetFirstFragmentMinSize();
      } else {
        size := bundle.GetLastFragmentMinSize();
      }
      ghost var spec := FragmentBundleSpec(current.Data(), Allowance(orig, shares, f));
      var next := FragmentBundle(current, (size + shares[f]) % TWO_32);
      if next == null {
        return [];
      } else if next == current {
        break;
      }
      PrefixedTwice(done, [spec.first], SplitFrom(orig, spec.rest, shares, f + 1));
      frags, done := frags + [current], done + [spec.first];
      current := next;
      f := f + 1;
    }
    frags := frags + [current];
  }

  // ---- What the fragments are

  /** The fragments are, in order, the consecutive pieces of `payload`: all of
      them well-formed, non-empty fragments of the same ADU. */
  predicate Partition(frags: seq<BundleData>, h: Header, flags: nat, adu: nat, offset: nat, payload: seq<byte>) {
    if frags == [] then payload == []
    else
      var d := frags[0];
      && WellFormed(d) && IsFragment(d.procFlags)
      && d.header == h && d.procFlags == flags && d.totalAduLength == adu && d.fragmentOffset == offset
      && 0 < |Payload(d)| <= |payload| && payload[..|Payload(d)|] == Payload(d)
      && Partition(frags[1..], h, flags, adu, offset + |Payload(d)|, payload[|Payload(d)|..])
  }

  predicate WithinBudget(frags: seq<BundleData>, maxFragment: nat) {
    forall i :: 0 <= i < |frags| ==> WellFormed(frags[i]) && SerializedSize(frags[i]) <= maxFragment
  }

  /** A working fragment after the first cut: the original's header, its
      replicated blocks and a payload block without flags or CRC. */
  predicate Follows(orig: BundleData, w: BundleData) {
    && WellFormed(w) && w.header == orig.header
    && w.procFlags == SetFragmentFlag(orig.procFlags)
    && orig.payload < |orig.blocks|
    && w.totalAduLength == AduLength(orig)
    && w.payload == |Replicated(orig.blocks)|
    && w.blocks == Replicated(orig.blocks) + [RemainderPayload(Payload(w))]
    && 0 < |Payload(w)| <= |Payload(orig)|
  }

  /** Headers recomputed while splitting never exceed the router's estimate. */
  lemma RecomputedWithinEstimate(orig: BundleData, w: BundleData)
    requires WellFormed(orig) && Follows(orig, w)
    ensures 0 <= FirstMinSize(w) <= LastMinSize(orig)
  {
    var rep := Replicated(orig.blocks);
    var pay := RemainderPayload(Payload(w));
    ReplicatedKinds(orig.blocks);
    FirstMinSplit(rep);
    TotalNone(rep, PayloadPart);
    TotalNone(rep, PayloadBlockSize);
    TotalSnoc(rep, pay, FirstMinBlock);
    LastMinOfReplicated(orig.blocks);
    OnePayloadTotals(orig);
    FlagKeepsHeadSize(orig.procFlags);
    UintSizeMonotone(|Payload(w)|, |Payload(orig)|);
    UintSizeMonotone(w.fragmentOffset, w.totalAduLength);
  }

  lemma FollowsCut(orig: BundleData, w: BundleData, firstMax: nat)
    requires WellFormed(orig) && Follows(orig, w)
    requires FirstMinSize(w) < firstMax < TWO_32
    requires FragmentBundleSpec(w, firstMax).Cut?
    ensures Follows(orig, FragmentBundleSpec(w, firstMax).rest)
  {
    hide WellFormed, FirstMinSize, SerializedSize, FragmentBundleSpec, Replicated;
    CutKeepsBound(w, firstMax);
    ReplicatedAgain(orig.blocks, RemainderPayload(Payload(w)));
  }

  lemma ReplicatedAgain(blocks: seq<Block>, pay: Block)
    requires pay.kind == PAYLOAD
    ensures Replicated(Replicated(blocks) + [pay]) == Replicated(blocks)
  {
    var rep := Replicated(blocks);
    ReplicatedKinds(blocks);
    ReplicatedFixed(rep);
    assert (rep + [pay])[..|rep|] == rep;
    assert rep + [] == rep;
  }

  lemma PartitionCons(d: BundleData, more: seq<BundleData>, adu: nat, offset: nat, payload: seq<byte>, rest: seq<byte>)
    requires WellFormed(d) && IsFragment(d.procFlags)
    requires d.totalAduLength == adu && d.fragmentOffset == offset
    requires 0 < |Payload(d)| && Payload(d) + rest == payload
    requires Partition(more, d.header, d.procFlags, adu, offset + |Payload(d)|, rest)
    ensures Partition([d] + more, d.header, d.procFlags, adu, offset, payload)
  {
    assert ([d] + more)[1..] == more;
    assert payload[|Payload(d)|..] == rest;
  }

  lemma PartitionOne(d: BundleData)
    requires WellFormed(d) && IsFragment(d.procFlags) && |Payload(d)| > 0
    ensures Partition([d], d.header, d.procFlags, d.totalAduLength, d.fragmentOffset, Payload(d))
  {
    PartitionCons(d, [], d.totalAduLength, d.fragmentOffset, Payload(d), []);
  }

  /** Splitting on from any later fragment succeeds within the budget, also when
      smaller recomputed headers make the last planned fragments unnecessary. */
  lemma {:induction false} SplitRest(orig: BundleData, w: BundleData, shares: seq<nat>, f: nat, maxFragment: nat)
    requires WellFormed(orig) && Follows(orig, w) && 1 <= f < |shares|
    requires |Payload(w)| <= Sum(shares[f..])
    requires forall i :: f <= i < |shares| ==> 0 < shares[i] <= maxFragment - LastMinSize(orig)
    requires maxFragment < TWO_32
    ensures var s := SplitFrom(orig, w, shares, f);
      && s.Some? && 1 <= |s.value| <= |shares| - f
      && WithinBudget(s.value, maxFragment)
      && Partition(s.value, w.header, w.procFlags, w.totalAduLength, w.fragmentOffset, Payload(w))
    decreases |shares| - f
  {
    hide WellFormed, FirstMinSize, LastMinSize, SerializedSize, FragmentBundleSpec, Partition;
    RecomputedWithinEstimate(orig, w);
    var firstMax := LastMinSize(orig) + shares[f];
    assert Allowance(orig, shares, f) == firstMax;
    FlagKeepsHeadSize(orig.procFlags);
    assert shares[f..][1..] == shares[f + 1..];
    if f == |shares| - 1 {
      assert Sum(shares[f + 1..]) == 0;
      SizeWithinFirstMin(w);
      PartitionOne(w);
    } else {
      CutKeepsBound(w, firstMax);
      match FragmentBundleSpec(w, firstMax)
      case NotNeeded =>
        PartitionOne(w);
      case Cut(first, rest) =>
        FollowsCut(orig, w, firstMax);
        SplitRest(orig, rest, shares, f + 1, maxFragment);
        PartitionCons(first, SplitFrom(orig, rest, shares, f + 1).value, w.totalAduLength,
                      w.fragmentOffset, Payload(w), Payload(rest));
    }
  }

  lemma MinSizesOrdered(d: BundleData)
    requires WellFormed(d)
    ensures 0 <= LastMinSize(d) <= FirstMinSize(d)
  {
    LastMinAtMostFirstMin(d.blocks);
    UintSizeMonotone(d.fragmentOffset, d.totalAduLength);
  }

  function BundleLimits(d: BundleData, maxFragment: nat, minPayload: nat): Limits
    requires WellFormed(d)
  {
    MinSizesOrdered(d);
    Limits(maxFragment, FirstMinSize(d), LastMinSize(d), LastMinSize(d), minPayload)
  }

  /** Where no payload is demanded of a fragment and one may be as large as the first
      one's headers, a plan begins with an empty share. */
  lemma EmptyFirstShare(d: BundleData)
    requires WellFormed(d)
    requires var room := FirstMinSize(d) - LastMinSize(d); room < |Payload(d)| <= 2 * room
    ensures LastMinSize(d) <= FirstMinSize(d)
    ensures var room: nat := FirstMinSize(d) - LastMinSize(d);
      Plan(BundleLimits(d, FirstMinSize(d), 0), |Payload(d)|) == Some([0, room, |Payload(d)| - room])
  {
    hide PlanFrom, WellFormed, FirstMinSize, LastMinSize;
    PayloadPresent(d);
    MinSizesOrdered(d);
    var l, n := BundleLimits(d, FirstMinSize(d), 0), |Payload(d)|;
    var room: nat := l.first - l.last;
    PlanStep(l, n - room, 2, l.mid);
    PlanStep(l, n, 1, l.mid);
    assert [room] + [n - room] == [room, n - room];
    PlanStep(l, n, 0, l.first);
    assert [0] + [room, n - room] == [0, room, n - room];
  }

  /** A bundle with a block of eight octets that only the first fragment carries. */
  const WITH_AGE := BundleData(Header(7, CrcNone, "dtn:none", "dtn:none", "dtn:none", 0, 0, 0), 0, 0, 0, 17,
                               [Block(7, 2, 0, CrcNone, [0, 0]),
                                Block(PAYLOAD, 1, 0, CrcNone, [1, 2, 3, 4, 5, 6, 7, 8, 9, 10, 11, 12])], 1)

  /** Its twelve octets of payload are planned as nothing, eight and four. */
  lemma EmptyFirstShareExample()
    ensures WellFormed(WITH_AGE) && FirstMinSize(WITH_AGE) - LastMinSize(WITH_AGE) == 8 && |Payload(WITH_AGE)| == 12
  {
    var age, payload := WITH_AGE.blocks[0], WITH_AGE.blocks[1];
    assert WITH_AGE.blocks == [age, payload];
    TotalOfTwo(age, payload, FirstMinBlock);
    TotalOfTwo(age, payload, LastMinBlock);
  }

  lemma TotalOfTwo(a: Block, b: Block, f: Block -> nat)
    ensures Total([a, b], f) == f(a) + f(b)
  {
    assert [a, b][..1] == [a] && [a][..0] == [];
    assert Total([], f) == 0 && Total([a], f) == f(a);
  }

  /** Whenever the router plans two or more fragments for a bundle, splitting
      succeeds, yields between two and the planned number of fragments, and every
      fragment serialises to at most the chosen size. It cuts the payload into
      consecutive non-empty pieces without losing or repeating an octet if and
      only if the first fragment has room for payload at all. */
  lemma FragmentsWithinBudget(d: BundleData, maxFragment: nat, minPayload: nat, shares: seq<nat>)
    requires WellFormed(d) && maxFragment <= INT32_MAX
    requires Plan(BundleLimits(d, maxFragment, minPayload), |Payload(d)|) == Some(shares)
    requires |shares| >= 2
    ensures var s := SplitFrom(d, FirstFragment(d), shares, 0);
      && s.Some? && 2 <= |s.value| <= |shares| <= ROUTER_MAX_FRAGMENTS
      && WithinBudget(s.value, maxFragment)
      && (Partition(s.value, d.header, SetFragmentFlag(d.procFlags), AduLength(d), d.fragmentOffset, Payload(d))
          <==> FirstMinSize(d) < maxFragment)
  {
    hide WellFormed, FirstMinSize, LastMinSize, SerializedSize, FragmentBundleSpec, Partition, Plan, Sum,
         FirstFragment, Follows, WithinBudget, SplitFrom, BundleLimits;
    PayloadPresent(d);
    PlanOfBundle(d, maxFragment, minPayload, shares);
    FirstCut(d, shares[0]);
    var Cut(first, rest) := FragmentBundleSpec(FirstFragment(d), FirstMinSize(d) + shares[0]);
    SplitRest(d, rest, shares, 1, maxFragment);
    SplitBegins(d, shares);
    var more := SplitFrom(d, rest, shares, 1).value;
    WithinCons(first, more, maxFragment);
    if shares[0] > 0 {
      PartitionCons(first, more, AduLength(d), d.fragmentOffset, Payload(d), Payload(rest));
    } else {
      NoEmptyPiece([first] + more, d.header, SetFragmentFlag(d.procFlags), AduLength(d), d.fragmentOffset, Payload(d));
    }
  }

  lemma SplitBegins(d: BundleData, shares: seq<nat>)
    requires d.payload < |d.blocks| && |shares| >= 2 && FirstFragment(d).payload < |FirstFragment(d).blocks|
    requires 0 <= FirstMinSize(d) && FirstMinSize(d) + shares[0] < TWO_32
    requires FragmentBundleSpec(FirstFragment(d), FirstMinSize(d) + shares[0]).Cut?
    ensures var Cut(first, rest) := FragmentBundleSpec(FirstFragment(d), FirstMinSize(d) + shares[0]);
      SplitFrom(d, FirstFragment(d), shares, 0) == Prefixed([first], SplitFrom(d, rest, shares, 1))
  {
    hide FirstMinSize, LastMinSize, FragmentBundleSpec, FirstFragment;
  }

  lemma WithinCons(first: BundleData, more: seq<BundleData>, maxFragment: nat)
    requires WellFormed(first) && SerializedSize(first) <= maxFragment && WithinBudget(more, maxFragment)
    ensures WithinBudget([first] + more, maxFragment)
  {
    hide WellFormed, SerializedSize;
  }

  lemma NoEmptyPiece(frags: seq<BundleData>, h: Header, flags: nat, adu: nat, offset: nat, payload: seq<byte>)
    requires frags != [] && WellFormed(frags[0]) && Payload(frags[0]) == []
    ensures !Partition(frags, h, flags, adu, offset, payload)
  {
  }

  lemma PlanOfBundle(d: BundleData, maxFragment: nat, minPayload: nat, shares: seq<nat>)
    requires WellFormed(d)
    requires Plan(BundleLimits(d, maxFragment, minPayload), |Payload(d)|) == Some(shares)
    requires |shares| >= 2
    ensures |shares| <= ROUTER_MAX_FRAGMENTS && 0 <= FirstMinSize(d)
    ensures 0 <= shares[0] == maxFragment - FirstMinSize(d) < |Payload(d)|
    ensures Sum(shares[1..]) == |Payload(d)| - shares[0]
    ensures forall i :: 1 <= i < |shares| ==> 0 < shares[i] <= maxFragment - LastMinSize(d)
  {
    hide WellFormed, FirstMinSize, LastMinSize, PlanFrom;
    PayloadPresent(d);
    var l := BundleLimits(d, maxFragment, minPayload);
    MinSizesOrdered(d);
    PlanFills(l, |Payload(d)|, 0, l.first);
    assert Sum(shares) == shares[0] + Sum(shares[1..]);
    SumPositive(shares[1..]);
  }

  /** The first cut takes exactly the planned share. */
  lemma FirstCut(d: BundleData, share: nat)
    requires WellFormed(d) && share < |Payload(d)|
    requires 0 <= FirstMinSize(d) && FirstMinSize(d) + share < TWO_32
    ensures FirstFragment(d).payload < |FirstFragment(d).blocks|
    ensures var r := FragmentBundleSpec(FirstFragment(d), FirstMinSize(d) + share);
      && r.Cut? && Follows(d, r.rest)
      && r.rest.header == d.header && r.rest.totalAduLength == AduLength(d)
      && WellFormed(r.first) && IsFragment(r.first.procFlags)
      && r.first.header == d.header && r.first.totalAduLength == AduLength(d)
      && r.first.procFlags == r.rest.procFlags == SetFragmentFlag(d.procFlags)
      && r.first.fragmentOffset == d.fragmentOffset
      && |Payload(r.first)| == share
      && Payload(r.first) + Payload(r.rest) == Payload(d)
      && r.rest.fragmentOffset == d.fragmentOffset + share
      && SerializedSize(r.first) <= FirstMinSize(d) + share
  {
    hide FirstMinSize, SerializedSize, FragmentBundleSpec;
    FirstFragmentMinSize(d);
    CutKeepsBound(FirstFragment(d), FirstMinSize(d) + share);
  }

  lemma SumPositive(s: seq<nat>)
    requires s != [] && forall i :: 0 <= i < |s| ==> s[i] > 0
    ensures Sum(s) > 0
  {
  }
}
