/** BPv6 bundles through the receive loop: `select_bundle_parser_version` and the
    BPv6 parser behind it. What comes in is sent. */
module RxBundle6 {
  import opened Octets
  import opened Bundle6
  import opened RxTask
  import B = Bundle6Parser
  import T = Bundle6RoundTrip
  import Bundle6Cbhe
  import Sdnv

  type Machine = p: B.Parser | B.Wellformed(p) witness B.Start(0)

  /** Before the first octet of a bundle the version is not known. */
  datatype Link = Unknown | Version6(p: Machine)

  function Forwarded(p: Machine, data: seq<byte>): (r: (Link, nat))
    ensures r.1 <= |data|
  {
    RestIsSuffix(p, data);
    var (q, rest) := B.Consume(p, data);
    (Version6(q), |data| - |rest|)
  }

  function Forward(bundleSize: nat, s: Link, data: seq<byte>): (r: (Link, nat))
    ensures r.1 <= |data|
  {
    match s
    case Unknown => if data != [] && data[0] == 6 then Forwarded(B.Start(bundleSize), data) else (Unknown, 0)
    case Version6(p) => Forwarded(p, data)
  }

  function BulkDone(s: Link, data: seq<byte>): Link {
    if s.Version6? && s.p.bulk then Version6(B.BulkDone(s.p, data)) else s
  }

  function Ops(bundleSize: nat): Parser<Link> {
    Parser(Unknown, (s: Link, data: seq<byte>) => Forward(bundleSize, s, data),
           (s: Link) => s.Unknown? || s.p.status == B.Good, (s: Link) => s.Version6? && s.p.bulk,
           (s: Link) => if s.Version6? then s.p.nextBytes else 0, BulkDone)
  }

  /** What is left of a buffer is its end. */
  lemma {:induction false} RestIsSuffix(p: B.Parser, s: seq<byte>)
    requires B.Wellformed(p)
    ensures var rest := B.Consume(p, s).1; |rest| <= |s| && rest == s[|s| - |rest|..]
    decreases |s|, if p.bulk then 1 else 0
  {
    hide B.ReadByte, B.BulkDone;
    if s != [] && p.status == B.Good {
      if p.bulk {
        if p.nextBytes <= |s| {
          RestIsSuffix(B.BulkDone(p, s[..p.nextBytes]), s[p.nextBytes..]);
        }
      } else {
        RestIsSuffix(B.ReadByte(p, s[0]), s[1..]);
      }
    }
  }

  /** A parser that is good and wants no bulk read takes an octet. */
  lemma TakesSome(p: B.Parser, s: seq<byte>)
    requires B.Wellformed(p) && p.status == B.Good && !p.bulk && s != []
    ensures |B.Consume(p, s).1| < |s|
  {
    hide B.ReadByte;
    RestIsSuffix(B.ReadByte(p, s[0]), s[1..]);
  }

  lemma Settles(p: B.Parser, s: seq<byte>)
    requires B.Wellformed(p)
    ensures B.Wellformed(B.Parse(p, s).0) && B.Parse(p, s).1 == B.Consume(p, s).1
  {
    hide B.Consume, B.BulkDone;
  }

  // ---- What a stream is read to

  /** A parser to the end of its bundle or of the stream. */
  function Turn(p: Machine, stream: seq<byte>): (r: (Machine, seq<byte>))
    ensures r == B.Parse(p, stream) && |r.1| <= |stream|
    ensures p.status == B.Good && !p.bulk && stream != [] ==> |r.1| < |stream|
  {
    RestIsSuffix(p, stream);
    Settles(p, stream);
    if p.status == B.Good && !p.bulk && stream != [] then TakesSome(p, stream); B.Parse(p, stream)
    else B.Parse(p, stream)
  }

  /** One bundle after the other, each by its own parser. */
  function Outcome(bundleSize: nat, s: Link, stream: seq<byte>): Reading<Link>
    decreases |stream|, if s.Version6? then 1 else 0
  {
    if s == Unknown && (stream == [] || stream[0] != 6) then Reading([], Unknown, stream)
    else
      var (q, rest) := Turn(if s == Unknown then B.Start(bundleSize) else s.p, stream);
      if q.status == B.Good then Reading([], Version6(q), rest)
      else Behind([Version6(q)], Outcome(bundleSize, Unknown, rest))
  }

  /** A version octet opens a BPv6 parser. */
  lemma Opens(bundleSize: nat, stream: seq<byte>)
    requires stream != [] && stream[0] == 6
    ensures Outcome(bundleSize, Unknown, stream) == Outcome(bundleSize, Version6(B.Start(bundleSize)), stream)
  {
    hide Turn;
  }

  lemma OutcomeOf(bundleSize: nat, p: Machine, stream: seq<byte>)
    ensures B.Wellformed(B.Parse(p, stream).0) && |B.Parse(p, stream).1| <= |stream|
    ensures var (q, rest) := B.Parse(p, stream);
      Outcome(bundleSize, Version6(p), stream)
      == if q.status == B.Good then Reading([], Version6(q), rest)
         else Behind([Version6(q)], Outcome(bundleSize, Unknown, rest))
  {
    hide Turn, B.Parse;
    var r := Turn(p, stream);
  }

  lemma NotGood(p: B.Parser, s: seq<byte>)
    requires B.Wellformed(p) && p.status != B.Good
    ensures B.Parse(p, s) == (p, s)
  {
  }

  lemma ParseSplit(p: Machine, data: seq<byte>, more: seq<byte>)
    ensures var (q, rest) := B.Consume(p, data); B.Parse(p, data + more) == B.Parse(q, rest + more)
  {
    hide B.Consume, B.Settled;
    B.ConsumeSplit(p, data, more);
  }

  lemma ForwardedMeans(bundleSize: nat, p: Machine, data: seq<byte>, more: seq<byte>)
    ensures var (t, n) := Forwarded(p, data);
      Outcome(bundleSize, Version6(p), data + more) == Outcome(bundleSize, t, data[n..] + more)
  {
    hide B.Consume, B.Parse, B.Wellformed, Outcome;
    RestIsSuffix(p, data);
    ParseSplit(p, data, more);
    var (q, rest) := B.Consume(p, data);
    OutcomeOf(bundleSize, p, data + more);
    OutcomeOf(bundleSize, q, rest + more);
  }

  lemma ForwardMeans(bundleSize: nat, s: Link, data: seq<byte>, more: seq<byte>)
    ensures var (t, n) := Forward(bundleSize, s, data);
      Outcome(bundleSize, s, data + more) == Outcome(bundleSize, t, data[n..] + more)
  {
    hide Outcome, Forwarded;
    match s
    case Unknown =>
      if data != [] && data[0] == 6 {
        Opens(bundleSize, data + more);
        ForwardedMeans(bundleSize, B.Start(bundleSize), data, more);
      } else {
        assert data[0..] == data;
      }
    case Version6(p) =>
      ForwardedMeans(bundleSize, p, data, more);
  }

  lemma BulkMeans(bundleSize: nat, p: Machine, data: seq<byte>, more: seq<byte>)
    requires p.status == B.Good && p.bulk && |data| == p.nextBytes
    ensures Outcome(bundleSize, Version6(p), data + more) == Outcome(bundleSize, Version6(B.BulkDone(p, data)), more)
  {
    hide B.Parse, B.BulkDone, Outcome;
    T.DataRead(p, data, more);
    OutcomeOf(bundleSize, p, data + more);
    OutcomeOf(bundleSize, B.BulkDone(p, data), more);
  }

  lemma EndMeans(bundleSize: nat, p: Machine, data: seq<byte>)
    requires p.status != B.Good
    ensures Outcome(bundleSize, Version6(p), data) == Behind([Version6(p)], Outcome(bundleSize, Unknown, data))
  {
    hide B.Parse, Outcome;
    NotGood(p, data);
    OutcomeOf(bundleSize, p, data);
  }

  lemma RefusedMeans(bundleSize: nat, s: Link, data: seq<byte>, more: seq<byte>)
    requires (s.Unknown? || s.p.status == B.Good) && !(s.Version6? && s.p.bulk) && data != []
    requires Forward(bundleSize, s, data).1 == 0
    ensures Outcome(bundleSize, s, data + more).left != []
  {
    hide B.Consume, B.Parse;
    match s
    case Unknown =>
      if data[0] == 6 {
        TakesSome(B.Start(bundleSize), data);
      }
    case Version6(p) =>
      TakesSome(p, data);
  }

  lemma WaitMeans(bundleSize: nat, p: Machine, data: seq<byte>)
    requires p.status == B.Good && p.bulk && |data| < p.nextBytes
    ensures Outcome(bundleSize, Version6(p), data).at == Version6(p)
  {
    hide B.BulkDone;
  }

  lemma StopMeans(bundleSize: nat, s: Link, data: seq<byte>)
    requires (s.Unknown? || s.p.status == B.Good) && !(s.Version6? && s.p.bulk)
    ensures data == [] ==> Outcome(bundleSize, s, data) == Reading([], s, [])
    ensures var r := Outcome(bundleSize, s, data);
      data != [] && r.at == Unknown && r.left == [] ==> r.ends != []
  {
    hide B.BulkDone, B.ReadByte;
  }

  /** The BPv6 parser reads streams as the receive loop asks of a parser. */
  lemma ParserMeans(bundleSize: nat)
    ensures Behaves(Ops(bundleSize))
    ensures Means(Ops(bundleSize), (s: Link, stream: seq<byte>) => Outcome(bundleSize, s, stream))
  {
    hide Forwarded, B.BulkDone, Forward, Outcome;
    var p, run := Ops(bundleSize), (s: Link, stream: seq<byte>) => Outcome(bundleSize, s, stream);
    forall s: Link, data: seq<byte> ensures p.bulk(s) ==> !p.bulk(p.bulkDone(s, data)) {
    }
    forall s: Link, data: seq<byte>, more: seq<byte> ensures TakenThen(p, run, s, data, more) {
      ForwardMeans(bundleSize, s, data, more);
    }
    forall s: Link, data: seq<byte>, more: seq<byte> ensures BulkThen(p, run, s, data, more) {
      if p.good(s) && p.bulk(s) && |data| == p.next(s) {
        BulkMeans(bundleSize, s.p, data, more);
      }
    }
    forall s: Link, data: seq<byte> ensures EndThen(p, run, s, data) {
      if !p.good(s) {
        EndMeans(bundleSize, s.p, data);
      }
    }
    forall s: Link, data: seq<byte>, more: seq<byte> ensures Refuses(p, run, s, data, more) {
      if p.good(s) && !p.bulk(s) && |data| == BUFFER_SIZE && p.parse(s, data).1 == 0 {
        RefusedMeans(bundleSize, s, data, more);
      }
    }
    forall s: Link, data: seq<byte> ensures Waits(p, run, s, data) {
      if p.good(s) && p.bulk(s) && |data| < p.next(s) {
        WaitMeans(bundleSize, s.p, data);
      }
    }
    forall s: Link, data: seq<byte> ensures Stops(p, run, s, data) {
      if p.good(s) && !p.bulk(s) {
        StopMeans(bundleSize, s, data);
      }
    }
  }

  // ---- Bundles one after the other

  /** Bundles the serialiser writes and the parser can read. */
  predicate Sendable(bs: seq<Bundle>, bundleSize: nat) {
    forall i :: 0 <= i < |bs| ==> T.Parsable(bs[i], bundleSize) && bs[i].version == 6
  }

  function Wires(bs: seq<Bundle>): seq<byte> {
    if bs == [] then [] else Wire(bs[0]) + Wires(bs[1..])
  }

  /** What the parsers that came to an end handed over. */
  function SentBy(ends: seq<Link>): seq<Bundle> {
    if ends == [] then []
    else (if ends[0].Version6? && ends[0].p.sent.Some? then [ends[0].p.sent.value] else []) + SentBy(ends[1..])
  }

  /** What is to be handed over: every bundle that has a payload. */
  function Expected(bs: seq<Bundle>): seq<Bundle> {
    if bs == [] then [] else (if T.HasPayload(bs[0].blocks) then [T.Back(bs[0])] else []) + Expected(bs[1..])
  }

  lemma FirstOctet(b: Bundle)
    ensures Wire(b) != [] && Wire(b)[0] == b.version
  {
    hide Sdnvs, PrimaryRest, BlocksWire;
  }

  /** One bundle, whatever follows. */
  lemma WireMeans(b: Bundle, bundleSize: nat, rest: seq<byte>) returns (q: Link)
    requires T.Parsable(b, bundleSize) && b.version == 6
    ensures Outcome(bundleSize, Unknown, Wire(b) + rest) == Behind([q], Outcome(bundleSize, Unknown, rest))
    ensures SentBy([q]) == (if T.HasPayload(b.blocks) then [T.Back(b)] else [])
  {
    hide B.Parse, Outcome, Wire, T.Parsable, T.HasPayload, T.Back;
    FirstOctet(b);
    Opens(bundleSize, Wire(b) + rest);
    OutcomeOf(bundleSize, B.Start(bundleSize), Wire(b) + rest);
    T.SerialisedIsParsed(b, bundleSize, rest);
    q := Version6(B.Parse(B.Start(bundleSize), Wire(b) + rest).0);
    assert [q][1..] == [];
  }

  lemma SentFirst(q: Link, ends: seq<Link>)
    ensures SentBy([q] + ends) == SentBy([q]) + SentBy(ends)
  {
    assert ([q] + ends)[1..] == ends && [q][1..] == [];
    assert SentBy([q]) + [] == SentBy([q]);
  }

  /** A stream of bundles is read to exactly these bundles, in order. */
  lemma {:induction false} WiresMean(bs: seq<Bundle>, bundleSize: nat)
    requires Sendable(bs, bundleSize)
    ensures var r := Outcome(bundleSize, Unknown, Wires(bs));
      r.at == Unknown && r.left == [] && |r.ends| == |bs| && SentBy(r.ends) == Expected(bs)
  {
    hide T.Parsable, T.HasPayload, T.Back, Wire, B.Parse;
    if bs != [] {
      hide Outcome;
      WiresMean(bs[1..], bundleSize);
      var q := WireMeans(bs[0], bundleSize, Wires(bs[1..]));
      SentFirst(q, Outcome(bundleSize, Unknown, Wires(bs[1..])).ends);
    }
  }

  /** The loop before anything came in. */
  function Fresh(events: seq<Event>): Loop<Link> {
    Loop(Unknown, [], events, [], [], [])
  }

  lemma FreshAtHead(events: seq<Event>, bundleSize: nat)
    ensures AtHead(Ops(bundleSize), Fresh(events))
  {
  }

  /** The loop after `k` rounds. */
  function After(bundleSize: nat, events: seq<Event>, k: nat): Loop<Link> {
    ParserMeans(bundleSize);
    FreshAtHead(events, bundleSize);
    Rounds(Ops(bundleSize), Fresh(events), k)
  }

  /** It had something to do before each of the first `k` rounds. */
  predicate Busy(bundleSize: nat, events: seq<Event>, k: nat) {
    forall j :: 0 <= j < k ==> Live(Ops(bundleSize), After(bundleSize, events, j))
  }

  lemma {:induction false} SentPrefix(a: seq<Link>, b: seq<Link>)
    ensures SentBy(a + b) == SentBy(a) + SentBy(b)
  {
    if a == [] {
      assert a + b == b;
    } else {
      assert a + b == [a[0]] + (a[1..] + b) && a == [a[0]] + a[1..];
      SentPrefix(a[1..], b);
      SentFirst(a[0], a[1..] + b);
      SentFirst(a[0], a[1..]);
    }
  }

  /** Bundles that come in without failures or late reads, in whatever chunks: at
      any time the loop has sent the first of them, in order, and nothing else. */
  lemma BundlesSentInOrder(bs: seq<Bundle>, bundleSize: nat, events: seq<Event>, k: nat)
    requires Sendable(bs, bundleSize) && Clean(events) && Incoming(events) == Wires(bs)
    requires Busy(bundleSize, events, k)
    ensures SentBy(After(bundleSize, events, k).ends) <= Expected(bs)
  {
    hide T.Parsable, Wires, Outcome, Rounds, SentBy, Expected, Incoming, Behaves, Means, Clean, Live;
    var p, run := Ops(bundleSize), (s: Link, stream: seq<byte>) => Outcome(bundleSize, s, stream);
    FreshAtHead(events, bundleSize);
    ParserMeans(bundleSize);
    WiresMean(bs, bundleSize);
    var l := Fresh(events);
    assert [] + Wires(bs) == Wires(bs);
    var all := Outcome(bundleSize, Unknown, Wires(bs)).ends;
    assert Meaning(run, l).ends == [] + all == all;
    var m := After(bundleSize, events, k);
    assert forall j :: 0 <= j < k ==> After(bundleSize, events, j) == Rounds(p, l, j);
    RoundsKeepMeaning(p, run, l, k);
    SentPrefix(m.ends, run(m.state, m.buffer + Incoming(m.events)).ends);
  }

  /** When nothing is left to do, all bundles have been parsed if and only if the
      buffer is empty, and then exactly these bundles have been sent, in order. */
  lemma BundlesSent(bs: seq<Bundle>, bundleSize: nat, events: seq<Event>, k: nat)
    requires Sendable(bs, bundleSize) && Clean(events) && Incoming(events) == Wires(bs)
    requires Busy(bundleSize, events, k) && !Live(Ops(bundleSize), After(bundleSize, events, k))
    ensures var l := After(bundleSize, events, k);
      && (|l.ends| == |bs| <==> l.buffer == [])
      && (l.buffer == [] ==> SentBy(l.ends) == Expected(bs))
  {
    hide T.Parsable, Wires, Outcome, Rounds, SentBy, Expected, Incoming, Behaves, Means, Clean, Live;
    var p, run := Ops(bundleSize), (s: Link, stream: seq<byte>) => Outcome(bundleSize, s, stream);
    FreshAtHead(events, bundleSize);
    ParserMeans(bundleSize);
    WiresMean(bs, bundleSize);
    var l := Fresh(events);
    assert [] + Wires(bs) == Wires(bs);
    var all := Outcome(bundleSize, Unknown, Wires(bs)).ends;
    assert Meaning(run, l).ends == [] + all == all;
    var m := After(bundleSize, events, k);
    assert forall j :: 0 <= j < k ==> After(bundleSize, events, j) == Rounds(p, l, j);
    RoundsKeepMeaning(p, run, l, k);
    AllEndedExactly(p, run, l, k);
    assert m.ends + run(m.state, m.buffer + Incoming(m.events)).ends == all;
    if |m.ends| == |bs| {
      assert m.ends == all;
    }
  }

  /** The receive loop for a link, run for a number of rounds. */
  method Receive(link: Input, bundleSize: nat, rounds: nat) returns (task: Task<Link>)
    modifies link
    ensures task.Valid() && task.From(0) == After(bundleSize, old(link.events), rounds)
  {
    hide Behaves, Rounds;
    ParserMeans(bundleSize);
    task := new Task(Ops(bundleSize), link);
    task.Run(rounds);
  }

  // ---- A bundle behind another one in the buffer

  lemma {:induction false} StoppedWhy(p: B.Parser, s: seq<byte>)
    requires B.Wellformed(p)
    ensures var (q, rest) := B.Consume(p, s);
      rest == [] || q.status != B.Good || (q.bulk && q.nextBytes > |rest|)
    decreases |s|, if p.bulk then 1 else 0
  {
    hide B.ReadByte, B.BulkDone;
    if s != [] && p.status == B.Good {
      if p.bulk {
        if p.nextBytes <= |s| {
          StoppedWhy(B.BulkDone(p, s[..p.nextBytes]), s[p.nextBytes..]);
        }
      } else {
        StoppedWhy(B.ReadByte(p, s[0]), s[1..]);
      }
    }
  }

  /** Two bundles in one buffer: the first is sent. */
  lemma FirstTaken(b: Bundle, bundleSize: nat, rest: seq<byte>)
    requires T.Parsable(b, bundleSize) && b.version == 6 && rest != []
    ensures var (t, n) := Forward(bundleSize, Unknown, Wire(b) + rest);
      && n == |Wire(b)| && t.Version6? && t.p.status == B.Done
      && t.p.sent == if T.HasPayload(b.blocks) then Some(T.Back(b)) else None
  {
    hide B.Consume, B.BulkDone, Wire, T.Parsable, T.HasPayload, T.Back;
    FirstOctet(b);
    T.SerialisedIsParsed(b, bundleSize, rest);
    StoppedWhy(B.Start(bundleSize), Wire(b) + rest);
    RestIsSuffix(B.Start(bundleSize), Wire(b) + rest);
  }

  /** The second waits in the buffer for another read. */
  lemma SecondBundleWaits(a: Bundle, b: Bundle, bundleSize: nat)
    requires Sendable([a, b], bundleSize) && |Wire(a)| + |Wire(b)| <= BUFFER_SIZE
    ensures var l := After(bundleSize, [Received(Wire(a) + Wire(b), false)], 1);
      l.state == Unknown && l.buffer == Wire(b) && l.events == [] && |l.ends| == 1 && SentBy(l.ends) == Expected([a])
  {
    hide Wire, T.Parsable, T.HasPayload, T.Back, Forward, Behaves;
    ParserMeans(bundleSize);
    var events := [Received(Wire(a) + Wire(b), false)];
    var p, l := Ops(bundleSize), Fresh(events);
    FreshAtHead(events, bundleSize);
    assert [a, b][0] == a && [a, b][1] == b && [a][1..] == [];
    FirstOctet(a);
    FirstOctet(b);
    FirstTaken(a, bundleSize, Wire(b));
    assert events[1..] == [] && [] + (Wire(a) + Wire(b)) == Wire(a) + Wire(b);
    var (t, n) := Forward(bundleSize, Unknown, Wire(a) + Wire(b));
    assert (Wire(a) + Wire(b))[n..] == Wire(b);
    var handed := [] + (Wire(a) + Wire(b))[..n];
    assert ChunkTaken(p, l) == Loop(Unknown, Wire(b), [], [] + [t], [], [] + [handed]);
    assert Rounds(p, l, 0) == l;
    assert [t][1..] == [];
  }

  /** When the link ends, the buffer is dropped. */
  lemma LinkEnds(bundleSize: nat, events: seq<Event>, k: nat)
    requires var l := After(bundleSize, events, k); l.state == Unknown && l.events == []
    ensures After(bundleSize, events, k + 1) == After(bundleSize, events, k).(buffer := [], log := [])
  {
    hide Behaves;
    ParserMeans(bundleSize);
    FreshAtHead(events, bundleSize);
    var p, l := Ops(bundleSize), Fresh(events);
    assert Rounds(p, l, k + 1) == Round(p, Rounds(p, l, k));
  }

  /** So the second is lost when the link ends now. */
  lemma SecondBundleLost(a: Bundle, b: Bundle, bundleSize: nat)
    requires Sendable([a, b], bundleSize) && |Wire(a)| + |Wire(b)| <= BUFFER_SIZE
    ensures var l := After(bundleSize, [Received(Wire(a) + Wire(b), false)], 2);
      l.buffer == [] && l.events == [] && |l.ends| == 1 && SentBy(l.ends) == Expected([a])
  {
    hide Wire, After, Sendable, SentBy, Expected;
    SecondBundleWaits(a, b, bundleSize);
    LinkEnds(bundleSize, [Received(Wire(a) + Wire(b), false)], 1);
  }

  /** A bundle of 26 octets. */
  const TINY := Bundle(6, 0, 20, Some([COLON]), Some([COLON]), Some([COLON]), Some([COLON]), 0, 0, 0, 0, 0,
                       [Block(PAYLOAD_BLOCK, 8, [], 0, [])])

  lemma TinyDictionary()
    ensures Dictionary(Eids(TINY)) == [0, 0, 0, 0, 0, 0, 0, 0] && Offsets(Eids(TINY)) == [0, 1, 2, 3, 4, 5, 6, 7]
  {
    var e: Option<Text> := Some([COLON]);
    assert Entry(e) == [0, 0] && Scheme(e) == [];
    assert Eids(TINY) == [e, e, e, e];
    assert [e, e, e, e][..3] == [e, e, e] && [e, e, e][..2] == [e, e] && [e, e][..1] == [e] && [e][..0] == [];
    assert Dictionary([e]) == [0, 0] && Offsets([e]) == [0, 1];
    assert Dictionary([e, e]) == [0, 0, 0, 0] && Offsets([e, e]) == [0, 1, 2, 3];
    assert Dictionary([e, e, e]) == [0, 0, 0, 0, 0, 0] && Offsets([e, e, e]) == [0, 1, 2, 3, 4, 5];
  }

  lemma TinySendable()
    ensures Sendable([TINY, TINY], 0) && |Wire(TINY)| == 26
  {
    hide Sdnvs, Dictionary, Offsets, Sdnv.Encode, IsFragment, T.HasPayload, HasColon, ProtocolFlags, BlocksWire,
         T.DataSize, T.LastMarked, T.Readable;
    TinyDictionary();
    assert HeaderNumbers(TINY) == [0, 1, 2, 3, 4, 5, 6, 7, 0, 0, 0, 8];
    NotFragment();
    Bundle6Cbhe.SmallSdnvs(HeaderNumbers(TINY));
    Bundle6Cbhe.SmallSdnvs(FragmentNumbers(TINY));
    Bundle6Cbhe.SmallSdnvs([0, 20]);
    TinyBlock();
  }

  lemma NotFragment()
    ensures !IsFragment(0) && ProtocolFlags(0) == 0
  {
  }

  lemma TinyBlock()
    ensures |BlocksWire(TINY.blocks)| == 3 && T.DataSize(TINY.blocks) == 0
    ensures T.LastMarked(TINY.blocks) && T.Readable(TINY.blocks[0])
  {
    hide Sdnvs;
    Bundle6Cbhe.SmallSdnvs([8, 0]);
    assert TINY.blocks[..0] == [] && TINY.blocks[1..] == [];
  }

  /** Such a link: one of two bundles is sent. */
  lemma OneOfTwoSent()
    ensures var m := After(0, [Received(Wire(TINY) + Wire(TINY), false)], 2);
      m.buffer == [] && m.events == [] && |m.ends| == 1
  {
    hide Wire, After, Sendable, SentBy, Expected;
    TinySendable();
    SecondBundleLost(TINY, TINY, 0);
  }
}
