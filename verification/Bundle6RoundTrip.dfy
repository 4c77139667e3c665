/** Parsing what the BPv6 serialiser wrote gives the bundle back. */
module Bundle6RoundTrip {
  import opened Octets
  import opened Bundle6
  import opened Bundle6Parser
  import Sdnv

  // ---- SDNVs in the parser

  /** The parser is about to read an SDNV and has enough of the primary block
      left for it. */
  predicate Ready(p: Parser, w: Sdnv.Width, octets: nat) {
    && Wellformed(p) && !p.bulk && p.status == Good
    && WidthOf(p.stage) == Some(w) && p.sdnv == Sdnv.FRESH
    && (p.inPrimary ==> if LengthKnown(p.stage) then p.primaryRemaining >= octets else p.primaryRemaining == 0)
  }

  /** The octets counted against the primary block. */
  function Paid(p: Parser, octets: nat): (r: nat)
    requires p.inPrimary && LengthKnown(p.stage) ==> p.primaryRemaining >= octets
  {
    if p.inPrimary && LengthKnown(p.stage) then p.primaryRemaining - octets else p.primaryRemaining
  }

  lemma LoadStored(s: Stage, c: Content, w: Sdnv.Width, v: nat)
    requires ContentFor(s, c) && WidthOf(s) == Some(w) && v < Sdnv.Limit(w)
    ensures Load(s, Store(s, c, v)) == v
  {
    if s == BlockFlags {
      LowOctet(LastBlockOf(c).flags, v);
    }
  }

  lemma LowOctet(flags: nat, v: nat)
    requires v < 256
    ensures (flags / 256 * 256 + v) % 256 == v && (flags / 256 * 256 + v) / 256 == flags / 256
  {
  }

  lemma StoredTwice(s: Stage, c: Content, w: Sdnv.Width, v: nat, u: nat)
    requires ContentFor(s, c) && WidthOf(s) == Some(w) && v < Sdnv.Limit(w)
    ensures Store(s, Store(s, c, v), u) == Store(s, c, u)
  {
    if s == BlockFlags {
      var b := LastBlockOf(c);
      LowOctet(b.flags, v);
      BlockTwice(c, b.(flags := b.flags / 256 * 256 + v), b.(flags := b.flags / 256 * 256 + u));
    } else if s == BlockDataLength {
      BlockTwice(c, LastBlockOf(c).(length := v), LastBlockOf(c).(length := u));
    } else if s.EidRef? {
      assert c.refs[s.k := v][s.k := u] == c.refs[s.k := u];
    }
  }

  /** The parser after `k` groups of an SDNV, which make `high`. */
  function Within(p: Parser, w: Sdnv.Width, high: nat, k: nat): (r: Parser)
    requires Ready(p, w, k)
    ensures Wellformed(r) && !r.bulk && r.status == Good
  {
    if k == 0 then p
    else p.(primaryRemaining := Paid(p, k), sdnv := Sdnv.State(Sdnv.InProgress, k),
            content := Store(p.stage, p.content, high))
  }

  lemma BlockTwice(c: Content, x: Block, y: Block)
    requires c.bundle.blocks != []
    ensures WithLastBlock(WithLastBlock(c, x), y) == WithLastBlock(c, y)
  {
    var n := |c.bundle.blocks| - 1;
    assert c.bundle.blocks[n := x][n := y] == c.bundle.blocks[n := y];
  }

  /** One more group that is not the last one. */
  lemma GroupRead(p: Parser, w: Sdnv.Width, value: nat, high: nat, k: nat)
    requires k > 0 && Ready(p, w, k) && k < Sdnv.GroupCount(value) && value < Sdnv.Limit(w) && high <= value / 128
    requires k == 1 ==> high < 128
    ensures ReadByte(Within(p, w, high / 128, k - 1), high % 128 + 128) == Within(p, w, high, k)
  {
    hide Sdnv.GroupCount, Sdnv.Limit, Sdnv.Read, Sdnv.FitsMore, Store, Load, SdnvDone;
    var q := Within(p, w, high / 128, k - 1);
    var b: byte := high % 128 + 128;
    Sdnv.Regroup(high);
    Sdnv.RoomForMore(w, value, k - 1);
    if k == 1 {
      Sdnv.ReadFirst(w, Load(p.stage, p.content), b);
    } else {
      LoadStored(p.stage, p.content, w, high / 128);
      Sdnv.ReadGroup(w, k - 1, high / 128, b);
      StoredTwice(p.stage, p.content, w, high / 128, high);
    }
  }

  lemma {:induction false} MarkedRead(p: Parser, w: Sdnv.Width, value: nat, high: nat, k: nat, rest: seq<byte>)
    requires Ready(p, w, k) && k < Sdnv.GroupCount(value) && value < Sdnv.Limit(w)
    requires high <= value / 128 && high < Sdnv.Pow128(k)
    ensures Consume(p, Sdnv.Marked(high, k) + rest) == Consume(Within(p, w, high, k), rest)
    decreases k
  {
    hide Sdnv.GroupCount, Sdnv.Limit, Sdnv.Pow128, Sdnv.Marked, ReadByte, Within, BulkDone;
    Sdnv.MarkedLast(high, k);
    if k == 0 {
      assert Sdnv.Marked(high, k) + rest == rest;
      assert Within(p, w, high, 0) == p by { WithinNothing(p, w, high); }
    } else {
      var b: byte := high % 128 + 128;
      var before := Sdnv.Marked(high / 128, k - 1);
      Sdnv.LowerPower(high, k);
      assert before + [b] + rest == before + ([b] + rest);
      MarkedRead(p, w, value, high / 128, k - 1, [b] + rest);
      GroupRead(p, w, value, high, k);
      assert ([b] + rest)[0] == b && ([b] + rest)[1..] == rest;
    }
  }

  lemma WithinNothing(p: Parser, w: Sdnv.Width, high: nat)
    requires Ready(p, w, 0)
    ensures Within(p, w, high, 0) == p
  {
  }

  /** The parser after an SDNV. */
  function After(p: Parser, w: Sdnv.Width, value: nat): Parser
    requires Ready(p, w, Sdnv.GroupCount(value))
  {
    var n := Sdnv.GroupCount(value);
    SdnvDone(p.(primaryRemaining := Paid(p, n), sdnv := Sdnv.State(Sdnv.Done, n),
                content := Store(p.stage, p.content, value)))
  }

  /** A written SDNV is read into its field at every stage, and the parser goes
      on to the next. */
  lemma SdnvRead(p: Parser, w: Sdnv.Width, value: nat, rest: seq<byte>)
    requires value < Sdnv.Limit(w) && Ready(p, w, Sdnv.GroupCount(value))
    ensures Consume(p, Sdnv.Encode(value) + rest) == Consume(After(p, w, value), rest)
  {
    hide Sdnv.GroupCount, Sdnv.Limit, Sdnv.Pow128, Sdnv.Marked, ReadByte, BulkDone, After, Within;
    var k := Sdnv.GroupCount(value) - 1;
    var last: byte := value % 128;
    Sdnv.HighGroups(value);
    assert Sdnv.Encode(value) + rest == Sdnv.Marked(value / 128, k) + ([last] + rest);
    MarkedRead(p, w, value, value / 128, k, [last] + rest);
    LastGroupRead(p, w, value);
    assert ([last] + rest)[0] == last && ([last] + rest)[1..] == rest;
  }

  lemma LastGroupRead(p: Parser, w: Sdnv.Width, value: nat)
    requires value < Sdnv.Limit(w) && Ready(p, w, Sdnv.GroupCount(value))
    ensures ReadByte(Within(p, w, value / 128, Sdnv.GroupCount(value) - 1), value % 128) == After(p, w, value)
  {
    hide Sdnv.GroupCount, Sdnv.Limit, Sdnv.Read, Sdnv.FitsMore, Store, Load, SdnvDone;
    var k := Sdnv.GroupCount(value) - 1;
    var q := Within(p, w, value / 128, k);
    var b: byte := value % 128;
    Sdnv.Regroup(value);
    Sdnv.HighGroups(value);
    Sdnv.RoomForMore(w, value, k);
    if k == 0 {
      Sdnv.ReadFirst(w, Load(p.stage, p.content), b);
    } else {
      LoadStored(p.stage, p.content, w, value / 128);
      Sdnv.ReadGroup(w, k, value / 128, b);
      StoredTwice(p.stage, p.content, w, value / 128, value);
    }
  }

  // ---- The primary block, part by part

  /** The parser at a stage of the primary block, about to read an SDNV. */
  function InHeader(stage: Stage, remaining: nat, bundle: Bundle, refs: seq<nat>, size: nat): Parser {
    Parser(Good, stage, true, remaining, Sdnv.FRESH, false, 0, None,
           Content(bundle, refs, (0, 0), 0, [], 0, 0, size, false, false))
  }

  const NO_REFS: seq<nat> := [0, 0, 0, 0, 0, 0, 0, 0]

  function Opened(b: Bundle): Bundle {
    EMPTY_BUNDLE.(version := b.version, flags := ProtocolFlags(b.flags), primaryLength := b.primaryLength)
  }

  lemma SdnvsFront(a: nat, values: seq<nat>, rest: seq<byte>)
    ensures Sdnvs([a] + values) + rest == Sdnv.Encode(a) + (Sdnvs(values) + rest)
  {
    assert ([a] + values)[1..] == values;
  }

  lemma NoSdnvs(rest: seq<byte>)
    ensures Sdnvs([]) + rest == rest
  {
  }

  lemma VersionRead(b: Bundle, size: nat, rest: seq<byte>)
    ensures Consume(Start(size), [b.version] + rest)
            == Consume(InHeader(ProcFlags, 0, EMPTY_BUNDLE.(version := b.version), NO_REFS, size), rest)
  {
    assert ([b.version] + rest)[0] == b.version && ([b.version] + rest)[1..] == rest;
  }

  lemma FlagsRead(b: Bundle, size: nat, rest: seq<byte>)
    requires b.flags < TWO_32 && b.primaryLength < TWO_16
    ensures Consume(InHeader(ProcFlags, 0, EMPTY_BUNDLE.(version := b.version), NO_REFS, size),
                    Sdnvs([ProtocolFlags(b.flags), b.primaryLength]) + rest)
            == Consume(InHeader(EidRef(0), b.primaryLength, Opened(b), NO_REFS, size), rest)
  {
    hide Consume, ProtocolFlags, Sdnvs;
    var p := InHeader(ProcFlags, 0, EMPTY_BUNDLE.(version := b.version), NO_REFS, size);
    var f := ProtocolFlags(b.flags);
    assert [f, b.primaryLength] == [f] + [b.primaryLength];
    SdnvsFront(f, [b.primaryLength], rest);
    assert [b.primaryLength] == [b.primaryLength] + [];
    SdnvsFront(b.primaryLength, [], rest);
    NoSdnvs(rest);
    SdnvRead(p, Sdnv.U32, f, Sdnv.Encode(b.primaryLength) + rest);
    var q := InHeader(BlockLength, 0, EMPTY_BUNDLE.(version := b.version, flags := f), NO_REFS, size);
    assert After(p, Sdnv.U32, f) == q;
    SdnvRead(q, Sdnv.U16, b.primaryLength, rest);
    assert After(q, Sdnv.U16, b.primaryLength) == InHeader(EidRef(0), b.primaryLength, Opened(b), NO_REFS, size);
  }

  function RefStage(k: nat): Stage {
    if k < 8 then EidRef(k) else Timestamp
  }

  lemma RefRead(bundle: Bundle, refs: seq<nat>, size: nat, remaining: nat, k: nat, v: nat, rest: seq<byte>)
    requires k < 8 && |refs| == 8 && v < TWO_64 && remaining >= Sdnv.GroupCount(v)
    ensures Consume(InHeader(EidRef(k), remaining, bundle, refs, size), Sdnv.Encode(v) + rest)
            == Consume(InHeader(RefStage(k + 1), remaining - Sdnv.GroupCount(v), bundle, refs[k := v], size), rest)
  {
    hide Consume, Sdnv.GroupCount;
    var p := InHeader(EidRef(k), remaining, bundle, refs, size);
    SdnvRead(p, Sdnv.U64, v, rest);
    assert After(p, Sdnv.U64, v)
        == InHeader(RefStage(k + 1), remaining - Sdnv.GroupCount(v), bundle, refs[k := v], size);
  }

  lemma {:induction false} RefsRead(bundle: Bundle, refs: seq<nat>, offsets: seq<nat>, size: nat, remaining: nat,
                                    k: nat,
                                    rest: seq<byte>)
    requires k <= 8 && |refs| == 8 && |offsets| == 8 && refs[..k] == offsets[..k]
    requires forall i :: 0 <= i < 8 ==> offsets[i] < TWO_64
    requires remaining >= |Sdnvs(offsets[k..])|
    ensures Consume(InHeader(RefStage(k), remaining, bundle, refs, size), Sdnvs(offsets[k..]) + rest)
            == Consume(InHeader(Timestamp, remaining - |Sdnvs(offsets[k..])|, bundle, offsets, size), rest)
    decreases 8 - k
  {
    hide Consume, Sdnv.GroupCount, Sdnv.Encode;
    if k == 8 {
      assert offsets[k..] == [] && refs == offsets;
      NoSdnvs(rest);
    } else {
      var v := offsets[k];
      assert offsets[k..] == [v] + offsets[k + 1..];
      assert offsets[k..][1..] == offsets[k + 1..];
      SdnvsFront(v, offsets[k + 1..], rest);
      RefRead(bundle, refs, size, remaining, k, v, Sdnvs(offsets[k + 1..]) + rest);
      assert refs[k := v][..k + 1] == offsets[..k + 1];
      RefsRead(bundle, refs[k := v], offsets, size, remaining - Sdnv.GroupCount(v), k + 1, rest);
    }
  }

  /** Times in seconds, as they come back. */
  function Seconds(ms: nat): nat {
    ms / 1000 * 1000
  }

  function Timed(b: Bundle): Bundle {
    Opened(b).(creationMs := Seconds(b.creationMs), sequence := b.sequence, lifetimeMs := Seconds(b.lifetimeMs))
  }

  /** The parser at the start of the dictionary. */
  function AtDictionary(remaining: nat, bundle: Bundle, refs: seq<nat>, length: nat, size: nat): Parser {
    Parser(Good, Dict, true, remaining, Sdnv.State(Sdnv.Done, Sdnv.GroupCount(length)), false, 0, None,
           Content(bundle, refs, (0, 0), length, [], length, 0, size + length + 1, false, false))
  }

  lemma TimeRead(bundle: Bundle, refs: seq<nat>, size: nat, remaining: nat, ms: nat, rest: seq<byte>)
    requires |refs| == 8 && ms < TWO_64 && remaining >= Sdnv.GroupCount(ms / 1000)
    ensures Consume(InHeader(Timestamp, remaining, bundle, refs, size), Sdnv.Encode(ms / 1000) + rest)
            == Consume(InHeader(SequenceNum, remaining - Sdnv.GroupCount(ms / 1000),
                                bundle.(creationMs := Seconds(ms)), refs, size), rest)
    ensures Consume(InHeader(Lifetime, remaining, bundle, refs, size), Sdnv.Encode(ms / 1000) + rest)
            == Consume(InHeader(DictLength, remaining - Sdnv.GroupCount(ms / 1000),
                                bundle.(lifetimeMs := Seconds(ms)), refs, size), rest)
  {
    hide Consume, Sdnv.GroupCount;
    var p, q := InHeader(Timestamp, remaining, bundle, refs, size), InHeader(Lifetime, remaining, bundle, refs, size);
    var n := remaining - Sdnv.GroupCount(ms / 1000);
    Sdnv.SmallRemainder(Seconds(ms), TWO_64);
    SdnvRead(p, Sdnv.U64, ms / 1000, rest);
    assert After(p, Sdnv.U64, ms / 1000) == InHeader(SequenceNum, n, bundle.(creationMs := Seconds(ms)), refs, size);
    SdnvRead(q, Sdnv.U64, ms / 1000, rest);
    assert After(q, Sdnv.U64, ms / 1000) == InHeader(DictLength, n, bundle.(lifetimeMs := Seconds(ms)), refs, size);
  }

  lemma SequenceRead(bundle: Bundle, refs: seq<nat>, size: nat, remaining: nat, v: nat, rest: seq<byte>)
    requires |refs| == 8 && v < TWO_64 && remaining >= Sdnv.GroupCount(v)
    ensures Consume(InHeader(SequenceNum, remaining, bundle, refs, size), Sdnv.Encode(v) + rest)
            == Consume(InHeader(Lifetime, remaining - Sdnv.GroupCount(v), bundle.(sequence := v), refs, size), rest)
  {
    hide Consume, Sdnv.GroupCount;
    var p := InHeader(SequenceNum, remaining, bundle, refs, size);
    SdnvRead(p, Sdnv.U64, v, rest);
    assert After(p, Sdnv.U64, v)
        == InHeader(Lifetime, remaining - Sdnv.GroupCount(v), bundle.(sequence := v), refs, size);
  }

  lemma DictLengthRead(bundle: Bundle, refs: seq<nat>, size: nat, remaining: nat, length: nat, rest: seq<byte>)
    requires |refs| == 8 && 0 < length < TWO_16 && remaining >= Sdnv.GroupCount(length)
    requires size + length + 1 <= MAX_SIZE
    ensures Consume(InHeader(DictLength, remaining, bundle, refs, size), Sdnv.Encode(length) + rest)
            == Consume(AtDictionary(remaining - Sdnv.GroupCount(length), bundle, refs, length, size), rest)
  {
    hide Consume, Sdnv.GroupCount;
    var p := InHeader(DictLength, remaining, bundle, refs, size);
    SdnvRead(p, Sdnv.U16, length, rest);
    Sdnv.SmallRemainder(size + length + 1, TWO_32);
    assert After(p, Sdnv.U16, length)
        == AtDictionary(remaining - Sdnv.GroupCount(length), bundle, refs, length, size);
  }

  lemma SdnvsStep(x: seq<nat>)
    requires x != []
    ensures Sdnvs(x) == Sdnv.Encode(x[0]) + Sdnvs(x[1..])
  {
  }

  lemma {:induction false} SdnvsAppend(x: seq<nat>, y: seq<nat>)
    ensures Sdnvs(x + y) == Sdnvs(x) + Sdnvs(y)
  {
    hide Sdnv.Encode, Sdnvs;
    if x == [] {
      assert x + y == y;
      NoSdnvs(Sdnvs(y));
    } else {
      SdnvsAppend(x[1..], y);
      assert (x + y)[1..] == x[1..] + y;
      SdnvsStep(x);
      SdnvsStep(x + y);
      Joined(Sdnv.Encode(x[0]), Sdnvs(x[1..]), Sdnvs(y));
    }
  }

  lemma Joined(x: seq<byte>, y: seq<byte>, z: seq<byte>)
    ensures x + (y + z) == x + y + z
  {
  }

  lemma Sdnvs4(a: nat, b: nat, c: nat, d: nat, rest: seq<byte>)
    ensures Sdnvs([a, b, c, d]) + rest
            == Sdnv.Encode(a) + (Sdnv.Encode(b) + (Sdnv.Encode(c) + (Sdnv.Encode(d) + rest)))
    ensures |Sdnvs([a, b, c, d])|
            == Sdnv.GroupCount(a) + Sdnv.GroupCount(b) + Sdnv.GroupCount(c) + Sdnv.GroupCount(d)
  {
    hide Sdnv.Encode;
    assert [a, b, c, d] == [a] + [b, c, d] && [b, c, d] == [b] + [c, d] && [c, d] == [c] + [d] && [d] == [d] + [];
    SdnvsFront(a, [b, c, d], rest);
    SdnvsFront(b, [c, d], rest);
    SdnvsFront(c, [d], rest);
    SdnvsFront(d, [], rest);
    NoSdnvs(rest);
  }

  /** The dictionary is short enough for 16-bit offsets. */
  predicate DictionaryFits(b: Bundle) {
    |Dictionary(Eids(b))| < TWO_16
  }

  lemma {:induction false} OffsetsWithin(eids: seq<Option<Text>>)
    ensures forall i :: 0 <= i < |Offsets(eids)| ==> Offsets(eids)[i] < |Dictionary(eids)|
  {
    if eids != [] {
      OffsetsWithin(eids[..|eids| - 1]);
    }
  }

  lemma OffsetsKept(b: Bundle)
    requires DictionaryFits(b)
    ensures Truncated(Offsets(Eids(b))) == Offsets(Eids(b))
    ensures |Dictionary(Eids(b))| > 0 && |Dictionary(Eids(b))| % TWO_16 == |Dictionary(Eids(b))|
  {
    hide Dictionary, Offsets;
    OffsetsWithin(Eids(b));
    var offsets := Offsets(Eids(b));
    assert offsets[0] < |Dictionary(Eids(b))|;
    forall i | 0 <= i < |offsets| ensures offsets[i] % TWO_16 == offsets[i] {
      Sdnv.SmallRemainder(offsets[i], TWO_16);
    }
  }

  /** The numbers between block length and dictionary. */
  lemma NumbersRead(b: Bundle, size: nat, remaining: nat, rest: seq<byte>)
    requires InRange(b) && DictionaryFits(b) && size + |Dictionary(Eids(b))| + 1 <= MAX_SIZE
    requires remaining >= |Sdnvs(HeaderNumbers(b))|
    ensures Consume(InHeader(EidRef(0), remaining, Opened(b), NO_REFS, size), Sdnvs(HeaderNumbers(b)) + rest)
            == Consume(AtDictionary(remaining - |Sdnvs(HeaderNumbers(b))|, Timed(b), Offsets(Eids(b)),
                                    |Dictionary(Eids(b))|, size), rest)
  {
    hide Consume, Sdnvs, Sdnv.Encode, Sdnv.GroupCount, Dictionary, Offsets, InHeader, AtDictionary, ProtocolFlags;
    var offsets, length := Offsets(Eids(b)), |Dictionary(Eids(b))|;
    OffsetsKept(b);
    OffsetsWithin(Eids(b));
    var times := [b.creationMs / 1000, b.sequence, b.lifetimeMs / 1000, length];
    SdnvsAppend(offsets, times);
    assert Sdnvs(HeaderNumbers(b)) + rest == Sdnvs(offsets) + (Sdnvs(times) + rest);
    assert offsets[0..] == offsets;
    RefsRead(Opened(b), NO_REFS, offsets, size, remaining, 0, Sdnvs(times) + rest);
    var r := remaining - |Sdnvs(offsets)|;
    Sdnvs4(b.creationMs / 1000, b.sequence, b.lifetimeMs / 1000, length, rest);
    var tail4 := Sdnv.Encode(length) + rest;
    var tail3 := Sdnv.Encode(b.lifetimeMs / 1000) + tail4;
    var tail2 := Sdnv.Encode(b.sequence) + tail3;
    TimeRead(Opened(b), offsets, size, r, b.creationMs, tail2);
    var r2, b2 := r - Sdnv.GroupCount(b.creationMs / 1000), Opened(b).(creationMs := Seconds(b.creationMs));
    SequenceRead(b2, offsets, size, r2, b.sequence, tail3);
    var r3, b3 := r2 - Sdnv.GroupCount(b.sequence), b2.(sequence := b.sequence);
    TimeRead(b3, offsets, size, r3, b.lifetimeMs, tail4);
    DictLengthRead(b3.(lifetimeMs := Seconds(b.lifetimeMs)), offsets, size,
                   r3 - Sdnv.GroupCount(b.lifetimeMs / 1000), length, rest);
  }

  // ---- The dictionary

  /** A terminated string is read back wherever it is. */
  lemma {:induction false} StringRead(before: seq<byte>, text: Text, after: seq<byte>)
    requires 0 !in text
    ensures StringAt(before + text + [0] + after, |before|) == text
    decreases |text|
  {
    var dict := before + text + [0] + after;
    if text != [] {
      assert dict == (before + [text[0]]) + text[1..] + [0] + after;
      StringRead(before + [text[0]], text[1..], after);
      assert dict[|before|] == text[0] && text[0] != 0;
    }
  }

  lemma DictionaryLast(eids: seq<Option<Text>>)
    requires eids != []
    ensures Dictionary(eids) == Dictionary(eids[..|eids| - 1]) + Entry(eids[|eids| - 1])
  {
    hide Entry;
  }

  lemma OffsetsLast(eids: seq<Option<Text>>)
    requires eids != []
    ensures var n := |eids| - 1;
      Offsets(eids) == Offsets(eids[..n]) + EntryOffsets(eids[n], |Dictionary(eids[..n])|)
  {
  }

  /** What is before and after an entry of the dictionary. */
  lemma {:induction false} Located(eids: seq<Option<Text>>, i: nat) returns (before: seq<byte>, after: seq<byte>)
    requires i < |eids|
    ensures Dictionary(eids) == before + Entry(eids[i]) + after
    ensures Offsets(eids)[2 * i] == |before| && Offsets(eids)[2 * i + 1] == |before| + |Scheme(eids[i])| + 1
  {
    hide Entry, Dictionary, Offsets, Scheme;
    var n := |eids| - 1;
    DictionaryLast(eids);
    OffsetsLast(eids);
    if i == n {
      before, after := Dictionary(eids[..n]), [];
      assert before + Entry(eids[i]) + [] == before + Entry(eids[i]);
    } else {
      before, after := Located(eids[..n], i);
      assert 2 * i + 1 < |Offsets(eids[..n])|;
      Joined(before + Entry(eids[i]), after, Entry(eids[n]));
      after := after + Entry(eids[n]);
    }
  }

  /** What an endpoint ID comes back as. */
  function Canonical(e: Option<Text>): Text {
    if HasColon(e) then e.value else DTN + [COLON] + NONE
  }

  lemma PartsMeet(e: Option<Text>)
    requires IsString(e)
    ensures Scheme(e) + [COLON] + Ssp(e) == Canonical(e)
    ensures 0 !in Scheme(e) && 0 !in Ssp(e) && COLON !in Scheme(e)
  {
    if HasColon(e) {
      var i := ColonAt(e.value);
      assert e.value == e.value[..i] + [COLON] + e.value[i + 1..];
    }
  }

  /** The offsets point at the written strings. */
  lemma EntryRead(eids: seq<Option<Text>>, i: nat)
    requires i < |eids| && IsString(eids[i])
    ensures ReadEid(Dictionary(eids), Offsets(eids)[2 * i], Offsets(eids)[2 * i + 1]) == Some(Canonical(eids[i]))
  {
    hide Dictionary, Offsets, StringAt, Scheme, Ssp, Canonical;
    var e := eids[i];
    PartsMeet(e);
    var before, after := Located(eids, i);
    var dict := Dictionary(eids);
    assert dict == before + Scheme(e) + [0] + (Ssp(e) + [0] + after);
    StringRead(before, Scheme(e), Ssp(e) + [0] + after);
    assert dict == (before + Scheme(e) + [0]) + Ssp(e) + [0] + after;
    StringRead(before + Scheme(e) + [0], Ssp(e), after);
  }

  lemma {:induction false} DictBytesRead(p: Parser, bytes: seq<byte>, rest: seq<byte>)
    requires Wellformed(p) && !p.bulk && p.status == Good && p.stage == Dict && p.inPrimary
    requires |bytes| < p.content.curRemaining < TWO_32 && |bytes| <= p.primaryRemaining
    ensures Consume(p, bytes + rest) == Consume(InDictionary(p, bytes), rest)
    decreases |bytes|
  {
    hide ReadByte, BulkDone;
    if bytes == [] {
      assert bytes + rest == rest && p.content.dict + [] == p.content.dict;
    } else {
      var b, q := bytes[0], InDictionary(p, [bytes[0]]);
      assert (bytes + rest)[0] == b && (bytes + rest)[1..] == bytes[1..] + rest;
      DictByteRead(p, b);
      assert Consume(p, bytes + rest) == Consume(q, bytes[1..] + rest);
      DictBytesRead(q, bytes[1..], rest);
      Further(p, bytes);
    }
  }

  lemma Further(p: Parser, bytes: seq<byte>)
    requires Wellformed(p) && !p.bulk && p.stage == Dict && bytes != []
    requires |bytes| <= p.content.curRemaining && |bytes| <= p.primaryRemaining
    ensures InDictionary(InDictionary(p, [bytes[0]]), bytes[1..]) == InDictionary(p, bytes)
  {
    assert p.content.dict + [bytes[0]] + bytes[1..] == p.content.dict + bytes;
  }

  /** The parser some octets further into the dictionary. */
  function InDictionary(p: Parser, bytes: seq<byte>): (r: Parser)
    requires Wellformed(p) && !p.bulk && p.stage == Dict
    requires |bytes| <= p.content.curRemaining && |bytes| <= p.primaryRemaining
    ensures Wellformed(r)
  {
    var c := p.content;
    p.(primaryRemaining := p.primaryRemaining - |bytes|,
       content := c.(curRemaining := c.curRemaining - |bytes|, dict := c.dict + bytes, index := c.index + |bytes|))
  }

  lemma DictByteRead(p: Parser, b: byte)
    requires Wellformed(p) && !p.bulk && p.status == Good && p.stage == Dict && p.inPrimary
    requires 1 < p.content.curRemaining < TWO_32 && 1 <= p.primaryRemaining
    ensures ReadByte(p, b) == InDictionary(p, [b])
  {
    hide SdnvByte, Enter, WithEids;
    WrapDown(p.content.curRemaining);
  }

  lemma WrapDown(n: nat)
    requires 1 <= n < TWO_32
    ensures (n + TWO_32 - 1) % TWO_32 == n - 1
  {
  }

  // ---- After the dictionary

  function Addressed(b: Bundle): Bundle {
    Timed(b).(destination := Some(Canonical(b.destination)), source := Some(Canonical(b.source)),
              reportTo := Some(Canonical(b.reportTo)), custodian := Some(Canonical(b.custodian)))
  }

  /** The last octet of the dictionary: the endpoint IDs are there. */
  lemma DictEnds(p: Parser, b: byte)
    requires Wellformed(p) && !p.bulk && p.status == Good && p.stage == Dict && p.inPrimary
    requires p.content.curRemaining == 1 && 1 <= p.primaryRemaining
    requires EidsRead(WithEids(InDictionary(p, [b]).content).bundle)
    ensures var q := InDictionary(p, [b]);
      ReadByte(p, b) == Enter(q.(content := WithEids(q.content)), AfterPrimaryHeader(p.content.bundle))
  {
    hide SdnvByte, Enter, EidAt;
    WrapDown(1);
  }

  function DictContent(b: Bundle, bundle: Bundle, size: nat): Content {
    var dict := Dictionary(Eids(b));
    Content(bundle, Offsets(Eids(b)), (0, 0), |dict|, dict, 0, |dict|, size + |dict| + 1, false, false)
  }

  lemma EidsComeBack(b: Bundle, size: nat)
    requires InRange(b)
    ensures WithEids(DictContent(b, Timed(b), size)) == DictContent(b, Addressed(b), size)
  {
    hide Dictionary, Offsets, Canonical, ReadEid, Timed;
    var eids := Eids(b);
    EntryRead(eids, 0);
    EntryRead(eids, 1);
    EntryRead(eids, 2);
    EntryRead(eids, 3);
    OffsetsWithin(eids);
    assert Offsets(eids)[0] < |Dictionary(eids)|;
  }

  /** The parser right after the dictionary. */
  function AfterDictionary(b: Bundle, size: nat, remaining: nat): (r: Parser)
    ensures Wellformed(r) && !r.bulk && r.status == Good
  {
    var p := Parser(Good, Dict, true, remaining, Sdnv.State(Sdnv.Done, Sdnv.GroupCount(|Dictionary(Eids(b))|)), false,
                    0, None, DictContent(b, Addressed(b), size));
    Enter(p, AfterPrimaryHeader(Addressed(b)))
  }

  lemma DictionaryTaken(b: Bundle, size: nat, remaining: nat)
    requires |Dictionary(Eids(b))| > 0 && remaining >= |Dictionary(Eids(b))|
    ensures var dict := Dictionary(Eids(b));
      var n := |dict| - 1;
      var p := AtDictionary(remaining, Timed(b), Offsets(Eids(b)), |dict|, size);
      var last := InDictionary(InDictionary(p, dict[..n]), [dict[n]]);
      last == p.(primaryRemaining := remaining - |dict|, content := DictContent(b, Timed(b), size))
  {
    hide Dictionary, Offsets, Timed, Sdnv.GroupCount;
    var dict := Dictionary(Eids(b));
    var n := |dict| - 1;
    assert ([] + dict[..n]) + [dict[n]] == dict;
  }

  lemma DictionaryRead(b: Bundle, size: nat, remaining: nat, rest: seq<byte>)
    requires InRange(b) && DictionaryFits(b) && remaining >= |Dictionary(Eids(b))|
    ensures Consume(AtDictionary(remaining, Timed(b), Offsets(Eids(b)), |Dictionary(Eids(b))|, size),
                    Dictionary(Eids(b)) + rest)
            == Consume(AfterDictionary(b, size, remaining - |Dictionary(Eids(b))|), rest)
  {
    hide Dictionary, Offsets, Timed, Addressed, Enter, ReadByte, BulkDone, Sdnv.GroupCount, WithEids,
         AfterPrimaryHeader,
         EidsRead;
    var dict := Dictionary(Eids(b));
    OffsetsKept(b);
    var n := |dict| - 1;
    var p := AtDictionary(remaining, Timed(b), Offsets(Eids(b)), |dict|, size);
    assert dict + rest == dict[..n] + ([dict[n]] + rest);
    DictBytesRead(p, dict[..n], [dict[n]] + rest);
    var q := InDictionary(p, dict[..n]);
    DictionaryTaken(b, size, remaining);
    EidsComeBack(b, size);
    AddressedRead(b);
    DictEnds(q, dict[n]);
    assert ([dict[n]] + rest)[0] == dict[n] && ([dict[n]] + rest)[1..] == rest;
  }

  lemma AddressedRead(b: Bundle)
    ensures EidsRead(Addressed(b)) && AfterPrimaryHeader(Addressed(b)) == AfterPrimaryHeader(Timed(b))
  {
  }

  // ---- Fragment fields

  /** The primary block as it comes back. */
  function PrimaryBack(b: Bundle): Bundle {
    if IsFragment(b.flags) then
      Addressed(b).(fragmentOffset := b.fragmentOffset, totalAduLength := b.totalAduLength)
    else Addressed(b)
  }

  lemma FlagsKeepFragment(flags: nat)
    ensures IsFragment(ProtocolFlags(flags)) == IsFragment(flags)
  {
    assert flags % 0x40 % 2 == flags % 2;
  }

  /** The parser at the type of a block. */
  predicate AtBlock(p: Parser, bundle: Bundle, size: nat) {
    && Wellformed(p) && !p.bulk && p.status == Good && p.stage == BlockType && !p.inPrimary
    && p.content.bundle == bundle && p.content.size == size && !p.content.payload
  }

  lemma FragmentRead(b: Bundle, size: nat, remaining: nat, rest: seq<byte>) returns (p: Parser)
    requires InRange(b) && remaining >= |Sdnvs(FragmentNumbers(b))|
    ensures AtBlock(p, PrimaryBack(b), size + |Dictionary(Eids(b))| + 1)
    ensures Consume(AfterDictionary(b, size, remaining), Sdnvs(FragmentNumbers(b)) + rest) == Consume(p, rest)
  {
    hide Consume, Sdnvs, Sdnv.Encode, Sdnv.GroupCount, Dictionary, Offsets, Canonical, ProtocolFlags;
    FlagsKeepFragment(b.flags);
    var q := AfterDictionary(b, size, remaining);
    if IsFragment(b.flags) {
      TwoNumbers(b.fragmentOffset, b.totalAduLength, rest);
      SdnvRead(q, Sdnv.U32, b.fragmentOffset, Sdnv.Encode(b.totalAduLength) + rest);
      var r := After(q, Sdnv.U32, b.fragmentOffset);
      SdnvRead(r, Sdnv.U32, b.totalAduLength, rest);
      p := After(r, Sdnv.U32, b.totalAduLength);
    } else {
      NoSdnvs(rest);
      p := q;
    }
  }

  lemma TwoNumbers(a: nat, c: nat, rest: seq<byte>)
    ensures Sdnvs([a, c]) + rest == Sdnv.Encode(a) + (Sdnv.Encode(c) + rest)
    ensures |Sdnvs([a, c])| == Sdnv.GroupCount(a) + Sdnv.GroupCount(c)
  {
    hide Sdnv.Encode;
    assert [a, c] == [a] + [c] && [c] == [c] + [];
    SdnvsFront(a, [c], rest);
    SdnvsFront(c, [], rest);
    NoSdnvs(rest);
  }

  // ---- Blocks

  /** A block the parser can read: its flags fit an octet. */
  predicate Readable(b: Block) {
    BlockInRange(b) && b.flags < 256
  }

  /** The parser when the data of a block begins. */
  function DataStart(p: Parser, b: Block): (r: Parser)
    requires Wellformed(p)
    ensures Wellformed(r)
  {
    p.(stage := BlockData, sdnv := Sdnv.State(Sdnv.Done, Sdnv.GroupCount(b.length)), bulk := true,
       nextBytes := b.length,
       content := p.content.(bundle := p.content.bundle.(blocks := p.content.bundle.blocks + [b.(data := [])]),
                             payload := p.content.payload || b.kind == PAYLOAD_BLOCK,
                             lastBlock := HasBit(b.flags, LAST_BLOCK),
                             index := 0, curRemaining := 0, size := p.content.size + b.length))
  }

  lemma BlockTypeRead(p: Parser, kind: byte, rest: seq<byte>)
    requires Wellformed(p) && !p.bulk && p.status == Good && p.stage == BlockType && !p.inPrimary
    ensures Consume(p, [kind] + rest)
            == Consume(p.(stage := BlockFlags, sdnv := Sdnv.FRESH, content := BeginBlock(p.content, kind)), rest)
  {
    hide ReadByte, BulkDone;
    BlockTypeByte(p, kind);
    assert ([kind] + rest)[0] == kind && ([kind] + rest)[1..] == rest;
  }

  lemma BlockTypeByte(p: Parser, kind: byte)
    requires Wellformed(p) && !p.bulk && p.status == Good && p.stage == BlockType && !p.inPrimary
    ensures ReadByte(p, kind) == p.(stage := BlockFlags, sdnv := Sdnv.FRESH, content := BeginBlock(p.content, kind))
  {
    hide SdnvByte, DictByte, EnterDictionary, EnterData;
  }

  lemma BlockFlagsRead(p: Parser, kind: byte, flags: nat, rest: seq<byte>)
    requires Wellformed(p) && !p.bulk && p.status == Good && !p.inPrimary && flags < 256 && !HasBit(flags, HAS_EID_REFS)
    ensures Consume(p.(stage := BlockFlags, sdnv := Sdnv.FRESH, content := BeginBlock(p.content, kind)),
                    Sdnv.Encode(flags) + rest)
            == Consume(p.(stage := BlockDataLength, sdnv := Sdnv.FRESH,
                          content := FlagsNoted(p.content, kind, flags)), rest)
  {
    hide Consume, Sdnv.GroupCount, HasBit, EnterDictionary, EnterData, Store, Noted, Following, BeginBlock, FlagsNoted;
    FlagsStored(p.content, kind, flags);
    var q := p.(stage := BlockFlags, sdnv := Sdnv.FRESH, content := BeginBlock(p.content, kind));
    SdnvRead(q, Sdnv.U8, flags, rest);
    assert After(q, Sdnv.U8, flags)
        == p.(stage := BlockDataLength, sdnv := Sdnv.FRESH, content := FlagsNoted(p.content, kind, flags));
  }

  lemma FlagsStored(c: Content, kind: byte, flags: nat)
    requires |c.refs| == 8 && flags < 256 && !HasBit(flags, HAS_EID_REFS)
    ensures var d := BeginBlock(c, kind);
      && ContentFor(BlockFlags, d)
      && Noted(BlockFlags, Store(BlockFlags, d, flags)) == Some(FlagsNoted(c, kind, flags))
      && ContentFor(BlockFlags, FlagsNoted(c, kind, flags))
      && Following(BlockFlags, FlagsNoted(c, kind, flags)) == BlockDataLength
  {
    hide HasBit;
    var blocks := c.bundle.blocks;
    assert (blocks + [Block(kind, 0, [], 0, [])])[|blocks| := Block(kind, flags, [], 0, [])]
        == blocks + [Block(kind, flags, [], 0, [])];
  }

  function FlagsNoted(c: Content, kind: byte, flags: nat): Content {
    c.(bundle := c.bundle.(blocks := c.bundle.blocks + [Block(kind, flags, [], 0, [])]),
       payload := c.payload || kind == PAYLOAD_BLOCK, lastBlock := HasBit(flags, LAST_BLOCK))
  }

  lemma BlockLengthRead(p: Parser, b: Block, rest: seq<byte>)
    requires Wellformed(p) && !p.bulk && p.status == Good && !p.inPrimary && Readable(b)
    requires p.content.size + b.length <= MAX_SIZE
    ensures Consume(p.(stage := BlockDataLength, sdnv := Sdnv.FRESH, content := FlagsNoted(p.content, b.kind, b.flags)),
                    Sdnv.Encode(b.length) + rest)
            == Consume(DataStart(p, b), rest)
  {
    hide Consume, Sdnv.GroupCount, HasBit;
    var q := p.(stage := BlockDataLength, sdnv := Sdnv.FRESH, content := FlagsNoted(p.content, b.kind, b.flags));
    SdnvRead(q, Sdnv.U32, b.length, rest);
    Sdnv.SmallRemainder(p.content.size + b.length, TWO_32);
    var blocks := p.content.bundle.blocks;
    assert (blocks + [Block(b.kind, b.flags, [], 0, [])])[|blocks| := Block(b.kind, b.flags, [], b.length, [])]
        == blocks + [b.(data := [])];
    assert After(q, Sdnv.U32, b.length) == DataStart(p, b);
  }

  /** A bulk read, also one of no octets at the end of the input. */
  lemma DataRead(p: Parser, data: seq<byte>, rest: seq<byte>)
    requires Wellformed(p) && p.bulk && p.status == Good && p.nextBytes == |data|
    ensures Parse(p, data + rest) == Parse(BulkDone(p, data), rest)
  {
    hide BulkDone, ReadByte;
    if data + rest == [] {
      assert data == [] && rest == [];
    } else {
      assert (data + rest)[..|data|] == data && (data + rest)[|data|..] == rest;
    }
  }

  /** The parser after a block. */
  function AfterBlock(p: Parser, b: Block): (r: Parser)
    requires Wellformed(p) && !p.bulk
    ensures Wellformed(r) && !r.bulk
  {
    var q := DataStart(p, b).(bulk := false);
    Enter(q.(content := q.content.(bundle := p.content.bundle.(blocks := p.content.bundle.blocks + [b]))),
          if HasBit(b.flags, LAST_BLOCK) then Finished else BlockType)
  }

  lemma BlockEnds(p: Parser, b: Block)
    requires Wellformed(p) && !p.bulk && !p.inPrimary
    ensures BulkDone(DataStart(p, b), b.data) == AfterBlock(p, b)
  {
    hide SdnvByte, DictByte, Enter, HasBit;
    var blocks := p.content.bundle.blocks;
    assert (blocks + [b.(data := [])])[|blocks| := b] == blocks + [b];
  }

  lemma BlockRead(p: Parser, b: Block, rest: seq<byte>)
    requires Wellformed(p) && !p.bulk && p.status == Good && p.stage == BlockType && !p.inPrimary && Readable(b)
    requires p.content.size + b.length <= MAX_SIZE
    ensures Parse(p, BlockWire(b) + rest) == Parse(AfterBlock(p, b), rest)
  {
    hide Consume, Sdnvs, Sdnv.Encode, DataStart, AfterBlock, BulkDone, BeginBlock, FlagsNoted, HasBit;
    TwoNumbers(b.flags, b.length, b.data + rest);
    var afterLength := b.data + rest;
    var afterFlags := Sdnv.Encode(b.length) + afterLength;
    assert BlockWire(b) + rest == [b.kind] + (Sdnvs([b.flags, b.length]) + (b.data + rest));
    BlockTypeRead(p, b.kind, Sdnv.Encode(b.flags) + afterFlags);
    BlockFlagsRead(p, b.kind, b.flags, afterFlags);
    BlockLengthRead(p, b, afterLength);
    DataStarts(p, b);
    DataRead(DataStart(p, b), b.data, rest);
    BlockEnds(p, b);
  }

  lemma DataStarts(p: Parser, b: Block)
    requires Wellformed(p) && p.status == Good
    ensures DataStart(p, b).bulk && DataStart(p, b).status == Good && DataStart(p, b).nextBytes == b.length
  {
  }

  lemma {:induction false} BlocksWireFront(blocks: seq<Block>)
    requires blocks != []
    ensures BlocksWire(blocks) == BlockWire(blocks[0]) + BlocksWire(blocks[1..])
  {
    hide BlockWire;
    var n := |blocks| - 1;
    if n == 0 {
      assert blocks[1..] == [] && blocks[..0] == [];
    } else {
      BlocksWireFront(blocks[..n]);
      assert blocks[..n][1..] == blocks[1..n] == blocks[1..][..n - 1];
      Joined(BlockWire(blocks[0]), BlocksWire(blocks[1..n]), BlockWire(blocks[n]));
    }
  }

  function DataSize(blocks: seq<Block>): nat {
    if blocks == [] then 0 else blocks[0].length + DataSize(blocks[1..])
  }

  /** Only the last block is marked as the last one. */
  predicate LastMarked(blocks: seq<Block>) {
    && blocks != []
    && forall i :: 0 <= i < |blocks| ==> (HasBit(blocks[i].flags, LAST_BLOCK) <==> i == |blocks| - 1)
  }

  predicate HasPayload(blocks: seq<Block>) {
    exists i :: 0 <= i < |blocks| && blocks[i].kind == PAYLOAD_BLOCK
  }

  lemma HasPayloadFront(blocks: seq<Block>)
    requires blocks != []
    ensures HasPayload(blocks) <==> blocks[0].kind == PAYLOAD_BLOCK || HasPayload(blocks[1..])
  {
    assert forall i :: 0 < i < |blocks| ==> blocks[i] == blocks[1..][i - 1];
    if HasPayload(blocks[1..]) {
      var i :| 0 <= i < |blocks[1..]| && blocks[1..][i].kind == PAYLOAD_BLOCK;
      assert blocks[i + 1].kind == PAYLOAD_BLOCK;
    }
  }

  lemma AfterBlockIs(p: Parser, b: Block)
    requires Wellformed(p) && !p.bulk && p.status == Good && !p.inPrimary
    ensures var q := AfterBlock(p, b);
      && q.content.bundle == p.content.bundle.(blocks := p.content.bundle.blocks + [b])
      && q.content.payload == (p.content.payload || b.kind == PAYLOAD_BLOCK)
      && q.content.size == p.content.size + b.length && !q.inPrimary
      && (if HasBit(b.flags, LAST_BLOCK)
          then q.status == Done && q.sent == (if q.content.payload then Some(q.content.bundle) else None)
          else q.status == Good && q.stage == BlockType)
  {
    hide HasBit, EnterDictionary, EnterData;
  }

  /** All blocks, up to the marked one, whatever follows. */
  lemma {:induction false} BlocksRead(p: Parser, blocks: seq<Block>, rest: seq<byte>)
    requires Wellformed(p) && !p.bulk && p.status == Good && p.stage == BlockType && !p.inPrimary
    requires LastMarked(blocks) && forall i :: 0 <= i < |blocks| ==> Readable(blocks[i])
    requires p.content.size + DataSize(blocks) <= MAX_SIZE
    ensures var (q, left) := Parse(p, BlocksWire(blocks) + rest);
      && left == rest && q.status == Done
      && q.sent == (if p.content.payload || HasPayload(blocks)
                    then Some(p.content.bundle.(blocks := p.content.bundle.blocks + blocks)) else None)
    decreases |blocks|
  {
    hide Readable, BlockWire, BlocksWire, AfterBlock, HasBit, HasPayload, BulkDone, ReadByte;
    var b, others := blocks[0], blocks[1..];
    BlocksWireFront(blocks);
    Joined(BlockWire(b), BlocksWire(others), rest);
    BlockRead(p, b, BlocksWire(others) + rest);
    AfterBlockIs(p, b);
    HasPayloadFront(blocks);
    var q := AfterBlock(p, b);
    if |blocks| == 1 {
      assert others == [] && blocks == [b];
      NothingWritten(rest);
    } else {
      assert forall i :: 0 <= i < |others| ==> others[i] == blocks[i + 1];
      BlocksRead(q, others, rest);
      assert p.content.bundle.blocks + [b] + others == p.content.bundle.blocks + blocks;
    }
  }

  lemma NothingWritten(rest: seq<byte>)
    ensures BlocksWire([]) + rest == rest && !HasPayload([])
  {
  }

  // ---- Whole bundles

  /** What the serialiser's output lets the parser read: the primary block's
      length covers what is left of it, the dictionary has 16-bit offsets, flags
      fit their fields, the last block is marked, and the size limit is kept. */
  predicate Parsable(b: Bundle, bundleSize: nat) {
    && InRange(b) && DictionaryFits(b)
    && b.primaryLength >= |PrimaryRest(b)|
    && LastMarked(b.blocks) && (forall i :: 0 <= i < |b.blocks| ==> Readable(b.blocks[i]))
    && bundleSize + |Dictionary(Eids(b))| + 1 + DataSize(b.blocks) <= MAX_SIZE
  }

  /** The bundle that comes back: flags of RFC 5050 only, endpoint IDs with a
      scheme, times in full seconds, fragment fields of fragments only. */
  function Back(b: Bundle): Bundle {
    PrimaryBack(b).(blocks := b.blocks)
  }

  lemma PrimaryParsed(b: Bundle, bundleSize: nat, rest: seq<byte>) returns (p: Parser)
    requires Parsable(b, bundleSize)
    ensures AtBlock(p, PrimaryBack(b), bundleSize + |Dictionary(Eids(b))| + 1)
    ensures Consume(Start(bundleSize),
                    [b.version] + Sdnvs([ProtocolFlags(b.flags), b.primaryLength]) + PrimaryRest(b) + rest)
            == Consume(p, rest)
  {
    hide Consume, Sdnvs, Dictionary, Offsets, HeaderNumbers, FragmentNumbers, InHeader, AtDictionary, AfterDictionary,
         PrimaryBack, ProtocolFlags, Readable, LastMarked, InRange, AtBlock;
    InRangeNumbers(b);
    var length, dict := b.primaryLength, Dictionary(Eids(b));
    var tail4 := Sdnvs(FragmentNumbers(b)) + rest;
    var tail3 := dict + tail4;
    var tail2 := Sdnvs(HeaderNumbers(b)) + tail3;
    var tail1 := Sdnvs([ProtocolFlags(b.flags), length]) + tail2;
    assert [b.version] + Sdnvs([ProtocolFlags(b.flags), length]) + PrimaryRest(b) + rest == [b.version] + tail1;
    VersionRead(b, bundleSize, tail1);
    FlagsRead(b, bundleSize, tail2);
    NumbersRead(b, bundleSize, length, tail3);
    var left := length - |Sdnvs(HeaderNumbers(b))|;
    DictionaryRead(b, bundleSize, left, tail4);
    p := FragmentRead(b, bundleSize, left - |dict|, rest);
  }

  lemma InRangeNumbers(b: Bundle)
    requires InRange(b)
    ensures b.flags < TWO_32 && b.primaryLength < TWO_16
  {
  }

  /** Parsing after serialising is the identity up to what the format leaves
      out, for any number of blocks and whatever follows the bundle. */
  lemma SerialisedIsParsed(b: Bundle, bundleSize: nat, rest: seq<byte>)
    requires Parsable(b, bundleSize)
    ensures var (p, left) := Parse(Start(bundleSize), Wire(b) + rest);
      && left == rest && p.status == Done
      && p.sent == if HasPayload(b.blocks) then Some(Back(b)) else None
  {
    hide Consume, Sdnvs, PrimaryRest, BlocksWire, PrimaryBack, DictionaryFits, Readable, LastMarked, HasPayload,
         Settled,
         InRange, BulkDone;
    var tail := BlocksWire(b.blocks) + rest;
    assert Wire(b) + rest
        == [b.version] + Sdnvs([ProtocolFlags(b.flags), b.primaryLength]) + PrimaryRest(b) + tail;
    var p := PrimaryParsed(b, bundleSize, tail);
    BlocksRead(p, b.blocks, rest);
    PrimaryHasNoBlocks(b);
    assert [] + b.blocks == b.blocks;
  }

  lemma PrimaryHasNoBlocks(b: Bundle)
    ensures PrimaryBack(b).blocks == []
  {
  }

  /** So it is when it arrives in chunks, with bulk reads across them. */
  lemma SerialisedIsParsedInChunks(b: Bundle, bundleSize: nat, chunks: seq<seq<byte>>)
    requires Parsable(b, bundleSize) && Concat(chunks) == Wire(b)
    ensures Wellformed(Drive(Start(bundleSize), [], chunks).0)
    ensures var (p, left) := Settled(Drive(Start(bundleSize), [], chunks));
      left == [] && p.status == Done && p.sent == if HasPayload(b.blocks) then Some(Back(b)) else None
  {
    hide Wire, Back, Consume, Drive, Settled, Parsable, HasPayload;
    ChunkingDoesNotMatter(Start(bundleSize), chunks);
    SerialisedIsParsed(b, bundleSize, []);
    assert Wire(b) + [] == Wire(b);
  }

  // ---- When it is the identity

  lemma CanonicalExactly(e: Option<Text>)
    ensures Some(Canonical(e)) == e <==> HasColon(e)
  {
    if e.Some? && !HasColon(e) {
      assert COLON !in e.value by { assert e.value[..ColonAt(e.value)] == e.value; }
      assert COLON == Canonical(e)[3];
    }
  }

  /** The bundle itself comes back if and only if it uses what the format can
      carry. */
  lemma IdentityExactly(b: Bundle)
    ensures Back(b) == b <==>
      && ProtocolFlags(b.flags) == b.flags
      && HasColon(b.destination) && HasColon(b.source) && HasColon(b.reportTo) && HasColon(b.custodian)
      && b.creationMs % 1000 == 0 && b.lifetimeMs % 1000 == 0
      && (!IsFragment(b.flags) ==> b.fragmentOffset == 0 && b.totalAduLength == 0)
  {
    hide ProtocolFlags, Canonical, HasColon, IsFragment;
    CanonicalExactly(b.destination);
    CanonicalExactly(b.source);
    CanonicalExactly(b.reportTo);
    CanonicalExactly(b.custodian);
  }

  // ---- The recalculated header length

  lemma {:induction false} SizesAreOctets(w: Sdnv.Width, values: seq<nat>)
    requires forall i :: 0 <= i < |values| ==> values[i] < Sdnv.Limit(w)
    ensures Sizes(w, values) == |Sdnvs(values)|
  {
    hide Sdnv.Encode, Sdnv.Size;
    if values != [] {
      Sdnv.SizeIsGroupCount(w, values[0]);
      SizesAreOctets(w, values[1..]);
    }
  }

  /** The recalculated length counts version, flags and length field too: it
      exceeds what is left of the block by exactly these. */
  lemma HeaderOverCounts(b: Bundle)
    requires InRange(b) && DictionaryFits(b)
    ensures HeaderSum(b) == |PrimaryRest(b)| + 1 + Sdnv.Size(Sdnv.U32, b.flags) + Sdnv.Size(Sdnv.U32, b.primaryLength)
  {
    hide Sdnvs, Sizes, Dictionary, Offsets, Sdnv.Size, IsFragment;
    var offsets, length := Offsets(Eids(b)), |Dictionary(Eids(b))|;
    OffsetsKept(b);
    OffsetsWithin(Eids(b));
    SizesAreOctets(Sdnv.U32, offsets);
    SizesAreOctets(Sdnv.U64, [b.creationMs / 1000, b.sequence, b.lifetimeMs / 1000]);
    SizesAreOctets(Sdnv.U32, FragmentNumbers(b));
    SizesAreOctets(Sdnv.U32, [length]);
    OneSize(length);
    var times := [b.creationMs / 1000, b.sequence, b.lifetimeMs / 1000];
    SdnvsAppend(offsets, times + [length]);
    SdnvsAppend(times, [length]);
    assert HeaderNumbers(b) == offsets + (times + [length]);
  }

  lemma OneSize(n: nat)
    ensures Sizes(Sdnv.U32, [n]) == Sdnv.Size(Sdnv.U32, n)
  {
    assert [n][1..] == [];
  }

  /** So the parser accepts it, unless the sum needs more than 16 bits. */
  lemma RecalculatedCovers(b: Bundle)
    requires InRange(b) && DictionaryFits(b) && HeaderSum(b) < TWO_16
    ensures Recalculated(b).primaryLength >= |PrimaryRest(Recalculated(b))|
  {
    hide HeaderSum, Sdnvs;
    HeaderOverCounts(b);
    assert PrimaryRest(Recalculated(b)) == PrimaryRest(b);
  }
}
