/** The receive loop of components/cla/cla_contact_rx_task.c, for any parser: what
    a round does, and that a stream is read to what it means. */
module RxTask {
  import opened Octets

  const BUFFER_SIZE := 64

  /** A parser as the receive loop uses it: how it takes a buffer, whether it is
      still good, whether and for how much it wants a bulk read, and what it does
      when the bulk read is there. */
  datatype Parser<!S> = Parser(start: S, parse: (S, seq<byte>) -> (S, nat), good: S -> bool,
                               bulk: S -> bool, next: S -> nat, bulkDone: (S, seq<byte>) -> S)

  /** It takes at most what it is given, is good when reset, and does not want a
      bulk read then or right after another. */
  ghost predicate Behaves<S(!new)>(p: Parser<S>) {
    && p.good(p.start) && !p.bulk(p.start)
    && (forall s: S, data: seq<byte> :: p.parse(s, data).1 <= |data|)
    && (forall s: S, data: seq<byte> :: p.bulk(s) ==> !p.bulk(p.bulkDone(s, data)))
  }

  // ---- Reads

  /** What `cla_read` may come back with: octets, possibly after the timeout, or a
      failure. */
  datatype Event = Received(data: seq<byte>, late: bool) | Failure

  datatype Got = Got(ok: bool, late: bool, data: seq<byte>, events: seq<Event>)

  function Length(events: seq<Event>): nat {
    if events == [] then 0
    else (match events[0] case Received(data, _) => 1 + |data| case Failure => 1) + Length(events[1..])
  }

  /** All octets that come in. */
  function Incoming(events: seq<Event>): seq<byte> {
    if events == [] then []
    else (match events[0] case Received(data, _) => data case Failure => []) + Incoming(events[1..])
  }

  /** `cla_read` of at most `max` octets; the end of the input is a failure. */
  function ReadOf(events: seq<Event>, max: nat): (r: Got)
    ensures |r.data| <= max && (!r.ok ==> r.data == [])
    ensures r.ok && max > 0 ==> Length(r.events) < Length(events)
  {
    if events == [] then Got(false, false, [], [])
    else match events[0]
      case Failure => Got(false, false, [], events[1..])
      case Received(all, late) =>
        if |all| <= max then Got(true, late, all, events[1..])
        else Got(true, late, all[..max], [Received(all[max..], late)] + events[1..])
  }

  /** The octets missing for a bulk read, read past the buffer; a failed or late
      read gives up. */
  function Gather(events: seq<Event>, missing: nat): (r: Got)
    ensures r.ok ==> |r.data| == missing
    decreases Length(events)
  {
    if missing == 0 then Got(true, false, [], events)
    else
      var got := ReadOf(events, missing);
      if !got.ok || got.late then got.(ok := false)
      else
        var more := Gather(got.events, missing - |got.data|);
        more.(data := got.data + more.data)
  }

  // ---- Rounds

  /** The receive loop: the parser, what is in the buffer, what is still to come,
      the parsers that came to an end, with what they sent, in order, the octets
      that were handed to the parser or a bulk buffer since it was reset, and those
      that were handed to each parser that came to an end. */
  datatype Loop<S> = Loop(state: S, buffer: seq<byte>, events: seq<Event>, ends: seq<S>, log: seq<byte>,
                          past: seq<seq<byte>>)

  /** A parser that is done or failed is reset. */
  function Ended<S>(p: Parser<S>, l: Loop<S>): Loop<S> {
    if p.good(l.state) then l
    else l.(state := p.start, ends := l.ends + [l.state], log := [], past := l.past + [l.log])
  }

  /** The buffer is thrown away, and what the parser had. */
  function Dropped<S>(p: Parser<S>, l: Loop<S>): Loop<S> {
    l.(state := p.start, buffer := [], log := [])
  }

  /** `buffer_read`: the buffer to the parser, until it ends, wants a bulk read or
      takes nothing. */
  function Parsed<S(!new)>(p: Parser<S>, l: Loop<S>): (r: Loop<S>)
    requires Behaves(p)
    ensures |r.buffer| <= |l.buffer| && r.events == l.events
    decreases |l.buffer|
  {
    if l.buffer == [] then l
    else
      var (t, n) := p.parse(l.state, l.buffer);
      assert n <= |l.buffer| by { TakesAtMost(p, l.state, l.buffer); }
      var m := l.(state := t, buffer := l.buffer[n..], log := l.log + l.buffer[..n]);
      if !p.good(t) then Ended(p, m)
      else if p.bulk(t) || n == 0 then m
      else Parsed(p, m)
  }

  lemma NothingParsed<S(!new)>(p: Parser<S>, l: Loop<S>)
    requires Behaves(p) && l.buffer == []
    ensures Parsed(p, l) == l
  {
  }

  lemma TakesAtMost<S(!new)>(p: Parser<S>, s: S, data: seq<byte>)
    requires Behaves(p)
    ensures p.parse(s, data).1 <= |data|
  {
  }

  /** What was read behind what is in the buffer; after the timeout the parser is
      reset first. */
  function Appended<S>(p: Parser<S>, l: Loop<S>, got: Got): Loop<S> {
    var m := if got.late then l.(state := p.start, log := []) else l;
    m.(buffer := l.buffer + got.data, events := got.events)
  }

  /** `rx_chunk_read` */
  function ChunkTaken<S(!new)>(p: Parser<S>, l: Loop<S>): Loop<S>
    requires Behaves(p) && |l.buffer| <= BUFFER_SIZE
  {
    var got := ReadOf(l.events, BUFFER_SIZE - |l.buffer|);
    if !got.ok then Dropped(p, l.(events := got.events))
    else Parsed(p, Appended(p, l, got))
  }

  /** A bulk read that the buffer holds. */
  function BulkHeld<S>(p: Parser<S>, l: Loop<S>): Loop<S>
    requires p.next(l.state) <= |l.buffer|
  {
    var data := l.buffer[..p.next(l.state)];
    l.(state := p.bulkDone(l.state, data), buffer := l.buffer[p.next(l.state)..], log := l.log + data)
  }

  /** A bulk read that goes past the buffer. */
  function BulkGathered<S>(p: Parser<S>, l: Loop<S>, got: Got): Loop<S> {
    var data := l.buffer + got.data;
    l.(state := p.bulkDone(l.state, data), buffer := [], events := got.events, log := l.log + data)
  }

  /** `rx_bulk_read` */
  function BulkTaken<S(!new)>(p: Parser<S>, l: Loop<S>): Loop<S>
    requires Behaves(p)
  {
    var wanted := p.next(l.state);
    if wanted <= |l.buffer| then Parsed(p, Ended(p, BulkHeld(p, l)))
    else
      var got := Gather(l.events, wanted - |l.buffer|);
      if !got.ok then Dropped(p, l.(events := got.events)) else Ended(p, BulkGathered(p, l, got))
  }

  function Taken<S(!new)>(p: Parser<S>, l: Loop<S>): Loop<S>
    requires Behaves(p) && |l.buffer| <= BUFFER_SIZE
  {
    if p.bulk(l.state) then BulkTaken(p, l) else ChunkTaken(p, l)
  }

  /** One round of `cla_contact_rx_task`; a full buffer of which nothing was taken
      is dropped. */
  function Round<S(!new)>(p: Parser<S>, l: Loop<S>): Loop<S>
    requires Behaves(p) && |l.buffer| <= BUFFER_SIZE
  {
    var m := Taken(p, l);
    if |m.buffer| == BUFFER_SIZE then Dropped(p, m) else m
  }

  /** At the head of the loop the parser is good and the buffer has room. */
  predicate AtHead<S>(p: Parser<S>, l: Loop<S>) {
    p.good(l.state) && |l.buffer| < BUFFER_SIZE
  }

  lemma EndedGood<S(!new)>(p: Parser<S>, l: Loop<S>)
    requires Behaves(p)
    ensures p.good(Ended(p, l).state)
  {
  }

  lemma {:induction false} ParsedGood<S(!new)>(p: Parser<S>, l: Loop<S>)
    requires Behaves(p) && p.good(l.state)
    ensures p.good(Parsed(p, l).state)
    decreases |l.buffer|
  {
    hide Behaves;
    if l.buffer != [] {
      var (t, n) := p.parse(l.state, l.buffer);
      TakesAtMost(p, l.state, l.buffer);
      var m := l.(state := t, buffer := l.buffer[n..], log := l.log + l.buffer[..n]);
      EndedGood(p, m);
      if p.good(t) && !p.bulk(t) && n != 0 {
        ParsedGood(p, m);
      }
    }
  }

  lemma StartGood<S(!new)>(p: Parser<S>)
    requires Behaves(p)
    ensures p.good(p.start) && !p.bulk(p.start)
  {
  }

  lemma TakenSmall<S(!new)>(p: Parser<S>, l: Loop<S>)
    requires Behaves(p) && AtHead(p, l)
    ensures |Taken(p, l).buffer| <= BUFFER_SIZE && p.good(Taken(p, l).state)
  {
    hide Behaves, Parsed, Gather, Ended;
    StartGood(p);
    if p.bulk(l.state) {
      var wanted := p.next(l.state);
      if wanted <= |l.buffer| {
        var m := BulkHeld(p, l);
        EndedGood(p, m);
        EndedFields(p, m);
        ParsedGood(p, Ended(p, m));
      } else {
        var got := Gather(l.events, wanted - |l.buffer|);
        var m := BulkGathered(p, l, got);
        EndedGood(p, m);
        EndedFields(p, m);
      }
    } else {
      var got := ReadOf(l.events, BUFFER_SIZE - |l.buffer|);
      if got.ok {
        ParsedGood(p, Appended(p, l, got));
      }
    }
  }

  lemma EndedFields<S>(p: Parser<S>, l: Loop<S>)
    ensures Ended(p, l).buffer == l.buffer && Ended(p, l).events == l.events
  {
  }

  lemma RoundKeepsHead<S(!new)>(p: Parser<S>, l: Loop<S>)
    requires Behaves(p) && AtHead(p, l)
    ensures AtHead(p, Round(p, l))
  {
    hide Behaves, Taken;
    TakenSmall(p, l);
    StartGood(p);
  }

  function Rounds<S(!new)>(p: Parser<S>, l: Loop<S>, k: nat): (r: Loop<S>)
    requires Behaves(p) && AtHead(p, l)
    ensures AtHead(p, r)
  {
    if k == 0 then l
    else
      var m := Rounds(p, l, k - 1);
      RoundKeepsHead(p, m);
      Round(p, m)
  }

  // ---- What a stream means

  /** What a stream is read to: the parsers that came to an end, the parser at the
      end of the stream, and the octets it does not take. */
  datatype Reading<S> = Reading(ends: seq<S>, at: S, left: seq<byte>)

  function Behind<S>(ends: seq<S>, r: Reading<S>): Reading<S> {
    r.(ends := ends + r.ends)
  }

  /** The stream ends where a parser ends. */
  predicate Complete<S(==)>(p: Parser<S>, r: Reading<S>) {
    r.at == p.start && r.left == []
  }

  /** `run` is what the parser makes of whole streams, as laws on the parser's
      parts. A parser may wait for octets it does not have yet. */
  ghost predicate Streams<S(!new)>(p: Parser<S>, run: (S, seq<byte>) -> Reading<S>) {
    && (forall s: S, data: seq<byte>, more: seq<byte> :: TakenThen(p, run, s, data, more))
    && (forall s: S, data: seq<byte>, more: seq<byte> :: BulkThen(p, run, s, data, more))
    && (forall s: S, data: seq<byte> :: EndThen(p, run, s, data))
  }

  /** Moreover, a full buffer is enough to go on, and what is missing at the end of
      a stream shows in its meaning. */
  ghost predicate Means<S(!new)>(p: Parser<S>, run: (S, seq<byte>) -> Reading<S>) {
    && Streams(p, run)
    && (forall s: S, data: seq<byte>, more: seq<byte> :: Refuses(p, run, s, data, more))
    && (forall s: S, data: seq<byte> :: Waits(p, run, s, data))
    && (forall s: S, data: seq<byte> :: Stops(p, run, s, data))
  }

  lemma MeansStreams<S(!new)>(p: Parser<S>, run: (S, seq<byte>) -> Reading<S>)
    requires Means(p, run)
    ensures Streams(p, run)
  {
  }

  ghost predicate TakenThen<S(!new)>(p: Parser<S>, run: (S, seq<byte>) -> Reading<S>, s: S, data: seq<byte>,
                                     more: seq<byte>) {
    var (t, n) := p.parse(s, data);
    p.good(s) && n <= |data| ==> run(s, data + more) == run(t, data[n..] + more)
  }

  ghost predicate BulkThen<S(!new)>(p: Parser<S>, run: (S, seq<byte>) -> Reading<S>, s: S, data: seq<byte>,
                                    more: seq<byte>) {
    p.good(s) && p.bulk(s) && |data| == p.next(s) ==> run(s, data + more) == run(p.bulkDone(s, data), more)
  }

  /** After the end of a parser the next one begins. */
  ghost predicate EndThen<S(!new)>(p: Parser<S>, run: (S, seq<byte>) -> Reading<S>, s: S, data: seq<byte>) {
    !p.good(s) ==> run(s, data) == Behind([s], run(p.start, data))
  }

  /** A full buffer of which a parser takes nothing is left over. */
  ghost predicate Refuses<S(!new)>(p: Parser<S>, run: (S, seq<byte>) -> Reading<S>, s: S, data: seq<byte>,
                                   more: seq<byte>) {
    p.good(s) && !p.bulk(s) && |data| == BUFFER_SIZE && p.parse(s, data).1 == 0 ==> run(s, data + more).left != []
  }

  /** A parser that waits for a bulk read has not come to an end. */
  ghost predicate Waits<S(!new)>(p: Parser<S>, run: (S, seq<byte>) -> Reading<S>, s: S, data: seq<byte>) {
    p.good(s) && p.bulk(s) && |data| < p.next(s) ==> run(s, data).at != p.start
  }

  /** Without octets nothing ends; with octets something does, or is left. */
  ghost predicate Stops<S(!new)>(p: Parser<S>, run: (S, seq<byte>) -> Reading<S>, s: S, data: seq<byte>) {
    p.good(s) && !p.bulk(s) ==>
      if data == [] then run(s, data) == Reading([], s, [])
      else run(s, data).at == p.start && run(s, data).left == [] ==> run(s, data).ends != []
  }

  /** What the loop makes of its input: what has come to an end, and what will. */
  function Meaning<S>(run: (S, seq<byte>) -> Reading<S>, l: Loop<S>): Reading<S> {
    Behind(l.ends, run(l.state, l.buffer + Incoming(l.events)))
  }

  function MeaningBefore<S>(run: (S, seq<byte>) -> Reading<S>, l: Loop<S>, more: seq<byte>): Reading<S> {
    Behind(l.ends, run(l.state, l.buffer + more))
  }

  lemma EndedKeeps<S(!new)>(p: Parser<S>, run: (S, seq<byte>) -> Reading<S>, l: Loop<S>, more: seq<byte>)
    requires Streams(p, run)
    ensures MeaningBefore(run, Ended(p, l), more) == MeaningBefore(run, l, more)
  {
    if !p.good(l.state) {
      assert EndThen(p, run, l.state, l.buffer + more);
      var r := run(p.start, l.buffer + more);
      assert l.ends + [l.state] + r.ends == l.ends + ([l.state] + r.ends);
    }
  }

  lemma {:induction false} ParsedKeeps<S(!new)>(p: Parser<S>, run: (S, seq<byte>) -> Reading<S>, l: Loop<S>,
                                               more: seq<byte>)
    requires Behaves(p) && Streams(p, run) && p.good(l.state)
    ensures MeaningBefore(run, Parsed(p, l), more) == MeaningBefore(run, l, more)
    decreases |l.buffer|
  {
    hide Behaves, Streams, Ended;
    if l.buffer != [] {
      var (t, n) := p.parse(l.state, l.buffer);
      TakesAtMost(p, l.state, l.buffer);
      var m := l.(state := t, buffer := l.buffer[n..], log := l.log + l.buffer[..n]);
      TakingKeeps(p, run, l.state, l.buffer, more);
      EndedKeeps(p, run, m, more);
      if p.good(t) && !p.bulk(t) && n != 0 {
        ParsedKeeps(p, run, m, more);
      }
    }
  }

  lemma TakingKeeps<S(!new)>(p: Parser<S>, run: (S, seq<byte>) -> Reading<S>, s: S, data: seq<byte>, more: seq<byte>)
    requires Behaves(p) && Streams(p, run) && p.good(s)
    ensures var (t, n) := p.parse(s, data);
      n <= |data| && run(s, data + more) == run(t, data[n..] + more)
  {
    assert TakenThen(p, run, s, data, more);
  }

  lemma BulkKeeps<S(!new)>(p: Parser<S>, run: (S, seq<byte>) -> Reading<S>, s: S, data: seq<byte>, more: seq<byte>)
    requires Streams(p, run) && p.good(s) && p.bulk(s) && |data| == p.next(s)
    ensures run(s, data + more) == run(p.bulkDone(s, data), more)
  {
    assert BulkThen(p, run, s, data, more);
  }

  // ---- Reads lose nothing

  lemma ReadGives(events: seq<Event>, max: nat)
    ensures var got := ReadOf(events, max); got.data + Incoming(got.events) == Incoming(events)
  {
    if events != [] {
      match events[0]
      case Failure =>
      case Received(all, late) =>
        if |all| > max {
          var rest := [Received(all[max..], late)] + events[1..];
          assert rest[1..] == events[1..] && rest[0].data == all[max..];
          assert all[..max] + (all[max..] + Incoming(events[1..])) == all + Incoming(events[1..]);
        }
    }
  }

  /** What was gathered and what is still to come is what was to come; also of a
      bulk read that gives up. */
  lemma {:induction false} GatherGives(events: seq<Event>, missing: nat)
    ensures var got := Gather(events, missing); got.data + Incoming(got.events) == Incoming(events)
    decreases Length(events)
  {
    hide Incoming, Length;
    if missing > 0 {
      var got := ReadOf(events, missing);
      ReadGives(events, missing);
      if got.ok && !got.late {
        GatherShorter(events, missing);
        var more := Gather(got.events, missing - |got.data|);
        GatherGives(got.events, missing - |got.data|);
        assert got.data + more.data + Incoming(more.events) == got.data + (more.data + Incoming(more.events));
      }
    } else {
      assert [] + Incoming(events) == Incoming(events);
    }
  }

  lemma GatherShorter(events: seq<Event>, missing: nat)
    requires missing > 0 && ReadOf(events, missing).ok
    ensures Length(ReadOf(events, missing).events) < Length(events)
  {
  }

  // ---- A round keeps the meaning unless a read fails or comes late, or a full buffer is stuck

  /** No read of this round fails or comes late. */
  predicate Faultless<S>(p: Parser<S>, l: Loop<S>)
    requires |l.buffer| <= BUFFER_SIZE
  {
    if p.bulk(l.state) then p.next(l.state) <= |l.buffer| || Gather(l.events, p.next(l.state) - |l.buffer|).ok
    else
      var got := ReadOf(l.events, BUFFER_SIZE - |l.buffer|);
      got.ok && !got.late
  }

  /** The buffer is full and the parser takes nothing of it. */
  predicate Stuck<S(!new)>(p: Parser<S>, l: Loop<S>)
    requires Behaves(p) && |l.buffer| <= BUFFER_SIZE
  {
    |Taken(p, l).buffer| == BUFFER_SIZE
  }

  lemma BulkTakenKeeps<S(!new)>(p: Parser<S>, run: (S, seq<byte>) -> Reading<S>, l: Loop<S>)
    requires Behaves(p) && Streams(p, run) && p.good(l.state) && p.bulk(l.state) && |l.buffer| <= BUFFER_SIZE
    requires Faultless(p, l)
    ensures Meaning(run, BulkTaken(p, l)) == Meaning(run, l)
  {
    hide Behaves, Streams, Ended, Parsed, Gather, Incoming;
    var wanted, more := p.next(l.state), Incoming(l.events);
    if wanted <= |l.buffer| {
      var data, rest := l.buffer[..wanted], l.buffer[wanted..];
      var m := BulkHeld(p, l);
      assert l.buffer + more == data + (rest + more);
      BulkKeeps(p, run, l.state, data, rest + more);
      EndedKeeps(p, run, m, more);
      EndedGood(p, m);
      EndedFields(p, m);
      ParsedKeeps(p, run, Ended(p, m), more);
    } else {
      var got := Gather(l.events, wanted - |l.buffer|);
      GatherGives(l.events, wanted - |l.buffer|);
      var data := l.buffer + got.data;
      var m := BulkGathered(p, l, got);
      assert l.buffer + more == data + Incoming(got.events);
      BulkKeeps(p, run, l.state, data, Incoming(got.events));
      assert [] + Incoming(got.events) == Incoming(got.events);
      EndedKeeps(p, run, m, Incoming(got.events));
      EndedFields(p, m);
    }
  }

  lemma ChunkTakenKeeps<S(!new)>(p: Parser<S>, run: (S, seq<byte>) -> Reading<S>, l: Loop<S>)
    requires Behaves(p) && Streams(p, run) && p.good(l.state) && |l.buffer| <= BUFFER_SIZE
    requires ReadOf(l.events, BUFFER_SIZE - |l.buffer|).ok
    ensures Meaning(run, ChunkTaken(p, l))
            == Meaning(run, if ReadOf(l.events, BUFFER_SIZE - |l.buffer|).late then l.(state := p.start) else l)
  {
    hide Behaves, Streams, Parsed, ReadOf, Incoming;
    var got := ReadOf(l.events, BUFFER_SIZE - |l.buffer|);
    ReadGives(l.events, BUFFER_SIZE - |l.buffer|);
    StartGood(p);
    var m := Appended(p, l, got);
    assert l.buffer + got.data + Incoming(got.events) == l.buffer + Incoming(l.events);
    ParsedKeeps(p, run, m, Incoming(got.events));
  }

  /** A round in which no read fails or comes late and that does not end with a
      full buffer keeps the meaning of the stream: nothing is lost, doubled, out
      of order or cut off by a reset. */
  lemma RoundKeepsMeaning<S(!new)>(p: Parser<S>, run: (S, seq<byte>) -> Reading<S>, l: Loop<S>)
    requires Behaves(p) && Streams(p, run) && AtHead(p, l) && Faultless(p, l) && !Stuck(p, l)
    ensures Meaning(run, Round(p, l)) == Meaning(run, l)
  {
    hide Behaves, Streams, Meaning, BulkTaken, ChunkTaken, Gather;
    if p.bulk(l.state) {
      BulkTakenKeeps(p, run, l);
    } else {
      ChunkTakenKeeps(p, run, l);
    }
  }

  /** In the other rounds the parser starts anew: behind a late chunk with the
      buffer as it is, after a failure or a full buffer with nothing. */
  lemma RoundStartsAnew<S(!new)>(p: Parser<S>, run: (S, seq<byte>) -> Reading<S>, l: Loop<S>)
    requires Behaves(p) && Streams(p, run) && AtHead(p, l) && (!Faultless(p, l) || Stuck(p, l))
    ensures var got := ReadOf(l.events, BUFFER_SIZE - |l.buffer|);
      if !Stuck(p, l) && !p.bulk(l.state) && got.ok
      then Meaning(run, Round(p, l)) == Meaning(run, l.(state := p.start))
      else Round(p, l).state == p.start && Round(p, l).buffer == []
  {
    hide Behaves, Streams, Meaning, Parsed, Gather, Ended;
    if !Stuck(p, l) && !p.bulk(l.state) && ReadOf(l.events, BUFFER_SIZE - |l.buffer|).ok {
      ChunkTakenKeeps(p, run, l);
    }
  }

  // ---- Every octet is handed on once and in order, whatever the parser

  /** The octets that were handed on, parser after parser, and those in the buffer. */
  function Held<S>(l: Loop<S>): seq<byte> {
    Concat(l.past) + l.log + l.buffer
  }

  /** All octets, from the first one handed on to the last one to come. */
  function Everything<S>(l: Loop<S>): seq<byte> {
    Held(l) + Incoming(l.events)
  }

  /** What was handed on stays where it is: the parsers that came to an end keep
      their octets, and the one in use keeps its own until it ends. */
  predicate Extends<S(==)>(l: Loop<S>, m: Loop<S>) {
    && l.ends <= m.ends && l.past <= m.past && |m.ends| - |l.ends| == |m.past| - |l.past|
    && l.log <= if |m.past| == |l.past| then m.log else m.past[|l.past|]
  }

  lemma ExtendsOn<S>(l: Loop<S>, m: Loop<S>, n: Loop<S>)
    requires Extends(l, m) && Extends(m, n)
    ensures Extends(l, n)
  {
    if |l.past| < |m.past| {
      assert m.past[|l.past|] == n.past[|l.past|];
    }
  }

  lemma EndedHolds<S>(p: Parser<S>, l: Loop<S>)
    ensures Held(Ended(p, l)) == Held(l) && Extends(l, Ended(p, l))
  {
    if !p.good(l.state) {
      ConcatAppend(l.past, [l.log]);
      ConcatOne(l.log);
      assert Concat(l.past) + l.log + [] + l.buffer == Concat(l.past) + l.log + l.buffer;
    }
  }

  /** The first octets of the buffer are handed on. */
  lemma HandedHolds<S>(l: Loop<S>, m: Loop<S>, n: nat)
    requires n <= |l.buffer|
    requires m.ends == l.ends && m.past == l.past && m.log == l.log + l.buffer[..n] && m.buffer == l.buffer[n..]
    ensures Held(m) == Held(l) && Extends(l, m)
  {
    assert l.buffer[..n] + l.buffer[n..] == l.buffer;
    assert Concat(l.past) + (l.log + l.buffer[..n]) + l.buffer[n..]
        == Concat(l.past) + l.log + (l.buffer[..n] + l.buffer[n..]);
  }

  lemma {:induction false} ParsedHolds<S(!new)>(p: Parser<S>, l: Loop<S>)
    requires Behaves(p)
    ensures Held(Parsed(p, l)) == Held(l) && Extends(l, Parsed(p, l))
    decreases |l.buffer|
  {
    hide Behaves, Ended, Held, Extends;
    if l.buffer == [] {
      HandedHolds(l, l, 0);
    } else {
      var (t, n) := p.parse(l.state, l.buffer);
      TakesAtMost(p, l.state, l.buffer);
      var m := l.(state := t, buffer := l.buffer[n..], log := l.log + l.buffer[..n]);
      HandedHolds(l, m, n);
      EndedHolds(p, m);
      if !p.good(t) {
        ExtendsOn(l, m, Ended(p, m));
      } else if !p.bulk(t) && n != 0 {
        ParsedHolds(p, m);
        ExtendsOn(l, m, Parsed(p, m));
      }
    }
  }

  lemma BulkTakenHolds<S(!new)>(p: Parser<S>, l: Loop<S>)
    requires Behaves(p) && p.bulk(l.state) && |l.buffer| <= BUFFER_SIZE && Faultless(p, l)
    ensures Everything(BulkTaken(p, l)) == Everything(l) && Extends(l, BulkTaken(p, l))
  {
    hide Behaves, Parsed, Ended, Held, Extends, Gather, Incoming;
    var wanted := p.next(l.state);
    if wanted <= |l.buffer| {
      var m := BulkHeld(p, l);
      HandedHolds(l, m, wanted);
      EndedHolds(p, m);
      EndedFields(p, m);
      ParsedHolds(p, Ended(p, m));
      ExtendsOn(l, m, Ended(p, m));
      ExtendsOn(l, Ended(p, m), Parsed(p, Ended(p, m)));
    } else {
      var got := Gather(l.events, wanted - |l.buffer|);
      GatherGives(l.events, wanted - |l.buffer|);
      var m := BulkGathered(p, l, got);
      BulkGatheredHolds(p, l, got);
      EndedHolds(p, m);
      EndedFields(p, m);
      ExtendsOn(l, m, Ended(p, m));
    }
  }

  lemma BulkGatheredHolds<S>(p: Parser<S>, l: Loop<S>, got: Got)
    requires got.data + Incoming(got.events) == Incoming(l.events)
    ensures Everything(BulkGathered(p, l, got)) == Everything(l) && Extends(l, BulkGathered(p, l, got))
  {
    hide Incoming;
    var m, c := BulkGathered(p, l, got), Concat(l.past);
    assert Held(m) == c + l.log + l.buffer + got.data;
    assert c + l.log + l.buffer + got.data + Incoming(got.events)
        == c + l.log + l.buffer + (got.data + Incoming(got.events));
  }

  lemma ChunkTakenHolds<S(!new)>(p: Parser<S>, l: Loop<S>)
    requires Behaves(p) && |l.buffer| <= BUFFER_SIZE && ReadOf(l.events, BUFFER_SIZE - |l.buffer|).ok
    ensures var was := if ReadOf(l.events, BUFFER_SIZE - |l.buffer|).late then l.(log := []) else l;
      Everything(ChunkTaken(p, l)) == Everything(was) && Extends(was, ChunkTaken(p, l))
  {
    hide Behaves, Parsed, Extends, ReadOf, Incoming;
    var got := ReadOf(l.events, BUFFER_SIZE - |l.buffer|);
    ReadGives(l.events, BUFFER_SIZE - |l.buffer|);
    var was := if got.late then l.(log := []) else l;
    var m := Appended(p, l, got);
    ParsedHolds(p, m);
    assert Held(m) == Held(was) + got.data;
    assert Held(was) + got.data + Incoming(got.events) == Held(was) + (got.data + Incoming(got.events));
    ExtendsSame(was, m, Parsed(p, m));
  }

  lemma ExtendsSame<S>(l: Loop<S>, m: Loop<S>, n: Loop<S>)
    requires Extends(m, n) && l.ends == m.ends && l.past == m.past && l.log == m.log
    ensures Extends(l, n)
  {
  }

  /** Whatever the parser, a round in which no read fails or comes late and that
      does not end with a full buffer neither loses nor doubles an octet nor
      changes the order: those handed on, those in the buffer and those to come
      are the same sequence, and what was handed on stays with its parser. */
  lemma RoundKeepsOctets<S(!new)>(p: Parser<S>, l: Loop<S>)
    requires Behaves(p) && |l.buffer| <= BUFFER_SIZE && Faultless(p, l) && !Stuck(p, l)
    ensures Everything(Round(p, l)) == Everything(l) && Extends(l, Round(p, l))
  {
    hide Behaves, Everything, Extends, BulkTaken, ChunkTaken, Gather;
    if p.bulk(l.state) {
      BulkTakenHolds(p, l);
    } else {
      ChunkTakenHolds(p, l);
    }
  }

  lemma {:induction false} RoundsKeepOctets<S(!new)>(p: Parser<S>, l: Loop<S>, k: nat)
    requires Behaves(p) && AtHead(p, l)
    requires forall j :: 0 <= j < k ==> Faultless(p, Rounds(p, l, j)) && !Stuck(p, Rounds(p, l, j))
    ensures Everything(Rounds(p, l, k)) == Everything(l) && Extends(l, Rounds(p, l, k))
  {
    hide Behaves, Everything, Extends, Round, Faultless, Stuck;
    if k == 0 {
      HandedHolds(l, l, 0);
    } else {
      RoundsKeepOctets(p, l, k - 1);
      var m := Rounds(p, l, k - 1);
      RoundKeepsOctets(p, m);
      ExtendsOn(l, m, Round(p, m));
    }
  }

  /** What the other rounds lose. A late chunk loses what the parser had taken since
      it was reset. A read that fails loses this and the buffer, a bulk read that
      gives up also what was gathered for it, and a full buffer that is stuck what
      the parser had taken and all 64 octets. Nothing else is lost. */
  lemma RoundLoses<S(!new)>(p: Parser<S>, l: Loop<S>)
    requires Behaves(p) && AtHead(p, l) && (!Faultless(p, l) || Stuck(p, l))
    ensures var got, m, r := ReadOf(l.events, BUFFER_SIZE - |l.buffer|), Taken(p, l), Round(p, l);
      var was := if got.late then l.(log := []) else l;
      if p.bulk(l.state) then
        var gathered := Gather(l.events, p.next(l.state) - |l.buffer|).data;
        && r.log == r.buffer == [] && r.past == l.past && |gathered| <= p.next(l.state) - |l.buffer|
        && Everything(l) == Concat(l.past) + (l.log + l.buffer + gathered) + Incoming(r.events)
      else if !got.ok then
        && r.log == r.buffer == [] && r.past == l.past
        && Everything(l) == Concat(l.past) + (l.log + l.buffer) + Incoming(r.events)
      else if !Stuck(p, l) then Everything(r) == Everything(was) && Extends(was, r)
      else
        && r.log == r.buffer == [] && r.past == m.past && |m.buffer| == BUFFER_SIZE && Extends(was, m)
        && Everything(was) == Concat(r.past) + (m.log + m.buffer) + Incoming(r.events)
  {
    hide Behaves, Parsed, Gather, Ended, Extends, Incoming;
    if p.bulk(l.state) {
      BulkLoses(p, l);
    } else {
      var got := ReadOf(l.events, BUFFER_SIZE - |l.buffer|);
      ReadGives(l.events, BUFFER_SIZE - |l.buffer|);
      if got.ok {
        ChunkTakenHolds(p, l);
      } else {
        assert [] + Incoming(got.events) == Incoming(got.events);
      }
    }
  }

  lemma BulkLoses<S(!new)>(p: Parser<S>, l: Loop<S>)
    requires Behaves(p) && AtHead(p, l) && p.bulk(l.state) && (!Faultless(p, l) || Stuck(p, l))
    ensures p.next(l.state) > |l.buffer|
    ensures var r, got := Round(p, l), Gather(l.events, p.next(l.state) - |l.buffer|);
      && r.log == r.buffer == [] && r.past == l.past && |got.data| <= p.next(l.state) - |l.buffer|
      && Everything(l) == Concat(l.past) + (l.log + l.buffer + got.data) + Incoming(r.events)
  {
    hide Behaves, Parsed, Gather, Ended, Incoming;
    if p.next(l.state) <= |l.buffer| {
      EndedFields(p, BulkHeld(p, l));
    } else {
      var missing := p.next(l.state) - |l.buffer|;
      var got := Gather(l.events, missing);
      GatherGives(l.events, missing);
      GatheredAtMost(l.events, missing);
      EndedFields(p, BulkGathered(p, l, got));
      var c := Concat(l.past);
      assert c + (l.log + l.buffer + got.data) + Incoming(got.events)
          == c + l.log + l.buffer + (got.data + Incoming(got.events));
    }
  }

  lemma {:induction false} GatheredAtMost(events: seq<Event>, missing: nat)
    ensures |Gather(events, missing).data| <= missing
    decreases Length(events)
  {
    hide Length;
    if missing > 0 && ReadOf(events, missing).ok {
      GatherShorter(events, missing);
      GatheredAtMost(ReadOf(events, missing).events, missing - |ReadOf(events, missing).data|);
    }
  }

  // ---- Input without failures that ends where a parser ends

  predicate Clean(events: seq<Event>) {
    forall i :: 0 <= i < |events| ==> events[i].Received? && !events[i].late
  }

  lemma ReadClean(events: seq<Event>, max: nat)
    requires Clean(events)
    ensures var got := ReadOf(events, max); Clean(got.events) && !got.late && (got.ok <==> events != [])
  {
  }

  lemma {:induction false} GatherClean(events: seq<Event>, missing: nat)
    requires Clean(events)
    ensures Clean(Gather(events, missing).events)
    ensures missing <= |Incoming(events)| ==> Gather(events, missing).ok
    decreases Length(events)
  {
    hide Clean, Length, Incoming;
    if missing > 0 {
      ReadClean(events, missing);
      ReadGives(events, missing);
      if ReadOf(events, missing).ok {
        GatherShorter(events, missing);
        GatherClean(ReadOf(events, missing).events, missing - |ReadOf(events, missing).data|);
      } else {
        NothingToCome(events);
      }
    }
  }

  lemma NothingToCome(events: seq<Event>)
    requires events == []
    ensures Incoming(events) == []
  {
  }

  /** There is something to do: octets to come, or a bulk read. */
  predicate Live<S>(p: Parser<S>, l: Loop<S>) {
    l.events != [] || p.bulk(l.state)
  }

  lemma CleanFaultless<S(!new)>(p: Parser<S>, run: (S, seq<byte>) -> Reading<S>, l: Loop<S>)
    requires Behaves(p) && Means(p, run) && AtHead(p, l) && Clean(l.events) && Live(p, l)
    requires Complete(p, Meaning(run, l))
    ensures Faultless(p, l) && Clean(Round(p, l).events)
  {
    hide Behaves, Parsed, Gather, Incoming, Ended, Clean;
    if p.bulk(l.state) {
      var wanted := p.next(l.state);
      assert Waits(p, run, l.state, l.buffer + Incoming(l.events));
      if wanted <= |l.buffer| {
        EndedFields(p, BulkHeld(p, l));
      } else {
        GatherClean(l.events, wanted - |l.buffer|);
        var got := Gather(l.events, wanted - |l.buffer|);
        EndedFields(p, BulkGathered(p, l, got));
      }
    } else {
      ReadClean(l.events, BUFFER_SIZE - |l.buffer|);
    }
  }

  /** If nothing of a full buffer was taken, it is left over. */
  lemma NothingTaken<S(!new)>(p: Parser<S>, run: (S, seq<byte>) -> Reading<S>, l: Loop<S>, more: seq<byte>)
    requires Behaves(p) && Means(p, run) && p.good(l.state) && !p.bulk(l.state) && |l.buffer| == BUFFER_SIZE
    requires |Parsed(p, l).buffer| == |l.buffer|
    ensures run(l.state, l.buffer + more).left != []
  {
    hide Behaves;
    TakesAtMost(p, l.state, l.buffer);
    var (t, n) := p.parse(l.state, l.buffer);
    EndedFields(p, l.(state := t, buffer := l.buffer[n..], log := l.log + l.buffer[..n]));
    assert n == 0;
    assert Refuses(p, run, l.state, l.buffer, more);
  }

  lemma CompleteNotStuck<S(!new)>(p: Parser<S>, run: (S, seq<byte>) -> Reading<S>, l: Loop<S>)
    requires Behaves(p) && Means(p, run) && AtHead(p, l) && Faultless(p, l)
    requires Complete(p, Meaning(run, l))
    ensures !Stuck(p, l)
  {
    hide Behaves, Means, Parsed, Gather, Incoming, Ended, ReadOf;
    if p.bulk(l.state) {
      var wanted := p.next(l.state);
      if wanted <= |l.buffer| {
        EndedFields(p, BulkHeld(p, l));
      } else {
        var got := Gather(l.events, wanted - |l.buffer|);
        EndedFields(p, BulkGathered(p, l, got));
      }
    } else {
      var got := ReadOf(l.events, BUFFER_SIZE - |l.buffer|);
      ReadGives(l.events, BUFFER_SIZE - |l.buffer|);
      var m := l.(buffer := l.buffer + got.data, events := got.events);
      assert l.buffer + got.data + Incoming(got.events) == l.buffer + Incoming(l.events);
      if |Parsed(p, m).buffer| == BUFFER_SIZE {
        NothingTaken(p, run, m, Incoming(got.events));
      }
    }
  }

  /** Input without failures that is complete keeps its meaning through any number
      of rounds, as long as there is something to do. */
  lemma {:induction false} RoundsKeepMeaning<S(!new)>(p: Parser<S>, run: (S, seq<byte>) -> Reading<S>, l: Loop<S>,
                                                      k: nat)
    requires Behaves(p) && Means(p, run) && AtHead(p, l) && Clean(l.events) && Complete(p, Meaning(run, l))
    requires forall j :: 0 <= j < k ==> Live(p, Rounds(p, l, j))
    ensures Meaning(run, Rounds(p, l, k)) == Meaning(run, l) && Clean(Rounds(p, l, k).events)
  {
    hide Behaves, Means, Meaning, Round, Live, Clean, Complete, Stuck, Faultless;
    if k > 0 {
      RoundsKeepMeaning(p, run, l, k - 1);
      var m := Rounds(p, l, k - 1);
      CleanFaultless(p, run, m);
      CompleteNotStuck(p, run, m);
      MeansStreams(p, run);
      RoundKeepsMeaning(p, run, m);
    }
  }

  /** When nothing is left to do, everything has come to an end, in order, if and
      only if the buffer is empty: the rest of it waits for another read. */
  lemma AllEndedExactly<S(!new)>(p: Parser<S>, run: (S, seq<byte>) -> Reading<S>, l: Loop<S>, k: nat)
    requires Behaves(p) && Means(p, run) && AtHead(p, l) && Clean(l.events) && Complete(p, Meaning(run, l))
    requires forall j :: 0 <= j < k ==> Live(p, Rounds(p, l, j))
    requires !Live(p, Rounds(p, l, k))
    ensures Rounds(p, l, k).ends == Meaning(run, l).ends <==> Rounds(p, l, k).buffer == []
    ensures Rounds(p, l, k).buffer == [] ==> Rounds(p, l, k).state == p.start
  {
    hide Behaves, Rounds;
    RoundsKeepMeaning(p, run, l, k);
    var m := Rounds(p, l, k);
    NothingToCome(m.events);
    assert m.buffer + [] == m.buffer;
    assert Stops(p, run, m.state, m.buffer);
  }

  // ---- The laws admit a parser that waits

  /** A parser of pairs of octets that takes nothing until a pair is there. */
  datatype Pair = Open | Pair(first: byte, second: byte)

  function ParsePair(s: Pair, data: seq<byte>): (Pair, nat) {
    if s.Open? && |data| >= 2 then (Pair(data[0], data[1]), 2) else (s, 0)
  }

  function Pairs(s: Pair, data: seq<byte>): Reading<Pair>
    decreases |data|, s.Pair?
  {
    if s.Pair? then Behind([s], Pairs(Open, data))
    else if |data| < 2 then Reading([], Open, data)
    else Behind([Pair(data[0], data[1])], Pairs(Open, data[2..]))
  }

  const PAIR_PARSER := Parser(Open, (s: Pair, data: seq<byte>) => ParsePair(s, data), (s: Pair) => s.Open?,
                              (s: Pair) => false, (s: Pair) => 0, (s: Pair, data: seq<byte>) => s)

  lemma PairTaken(s: Pair, data: seq<byte>, more: seq<byte>)
    requires s.Open?
    ensures var (t, n) := ParsePair(s, data); Pairs(s, data + more) == Pairs(t, data[n..] + more)
  {
    if |data| >= 2 {
      assert (data + more)[2..] == data[2..] + more;
    }
  }

  /** It waits with one octet in the buffer and yet has a meaning, so that the
      results above are about it too. */
  lemma WaitingParserMeans(octet: byte)
    ensures Behaves(PAIR_PARSER) && Means(PAIR_PARSER, (s: Pair, data: seq<byte>) => Pairs(s, data))
    ensures PAIR_PARSER.parse(PAIR_PARSER.start, [octet]) == (PAIR_PARSER.start, 0)
  {
    var p, run := PAIR_PARSER, (s: Pair, data: seq<byte>) => Pairs(s, data);
    forall s: Pair, data: seq<byte>, more: seq<byte> ensures TakenThen(p, run, s, data, more) {
      if p.good(s) {
        PairTaken(s, data, more);
      }
    }
  }

  // ---- The loop

  class Input {
    var events: seq<Event>

    /** `cla_read` */
    method Read(max: nat) returns (ok: bool, data: seq<byte>, late: bool)
      modifies this
      ensures Got(ok, late, data, events) == ReadOf(old(events), max)
    {
      if events == [] {
        return false, [], false;
      }
      match events[0] {
        case Failure =>
          events := events[1..];
          return false, [], false;
        case Received(all, l) =>
          if |all| <= max {
            events := events[1..];
            return true, all, l;
          }
          events := [Received(all[max..], l)] + events[1..];
          return true, all[..max], l;
      }
    }
  }

  class Task<S(!new)> {
    const parser: Parser<S>
    var state: S
    const buffer: array<byte>
    var end: nat
    const input: Input
    /** The parsers that came to an end, with what they sent. */
    ghost var ends: seq<S>
    /** The octets handed on since the last reset, and to each parser that ended. */
    ghost var log: seq<byte>
    ghost var past: seq<seq<byte>>

    ghost predicate Valid()
      reads this, buffer
    {
      buffer.Length == BUFFER_SIZE && end <= BUFFER_SIZE && Behaves(parser)
    }

    /** The loop with the buffer from `stream` on. */
    ghost function From(stream: nat): Loop<S>
      requires Valid() && stream <= end
      reads this, buffer, input
    {
      Loop(state, buffer[stream..end], input.events, ends, log, past)
    }

    constructor (p: Parser<S>, link: Input)
      requires Behaves(p)
      ensures Valid() && fresh(buffer) && parser == p && input == link
      ensures From(0) == Loop(p.start, [], link.events, [], [], []) && AtHead(p, From(0))
    {
      parser, state, input := p, p.start, link;
      buffer := new byte[BUFFER_SIZE](i => 0);
      end := 0;
      ends, log, past := [], [], [];
    }

    /** `cla_rx_task_reset_parsers` after the parser came to an end. */
    method ResetIfEnded(stream: nat)
      requires Valid() && stream <= end
      modifies this`state, this`ends, this`log, this`past
      ensures From(stream) == Ended(parser, old(From(stream)))
    {
      if !parser.good(state) {
        ends, log, past := ends + [state], [], past + [log];
        state := parser.start;
      }
    }

    /** `buffer_read` */
    method BufferRead(from: nat) returns (stream: nat)
      requires Valid() && from <= end && parser.good(state)
      modifies this`state, this`ends, this`log, this`past
      ensures from <= stream <= end && From(stream) == Parsed(parser, old(From(from)))
    {
      hide Behaves;
      stream := from;
      ghost var goal := Parsed(parser, From(from));
      while stream < end
        invariant from <= stream <= end && Parsed(parser, From(stream)) == goal
        decreases end - stream
      {
        TakesAtMost(parser, state, buffer[stream..end]);
        var (t, parsed) := parser.parse(state, buffer[stream..end]);
        assert buffer[stream..end][parsed..] == buffer[stream + parsed..end];
        log := log + buffer[stream..end][..parsed];
        stream := stream + parsed;
        state := t;
        if !parser.good(state) {
          ResetIfEnded(stream);
          return;
        } else if parser.bulk(state) {
          return;
        } else if parsed == 0 {
          return;
        }
      }
    }

    /** The octets missing for a bulk read, read past the buffer. */
    method ReadDirectly(missing: nat) returns (ok: bool, data: seq<byte>)
      modifies input
      ensures ok == Gather(old(input.events), missing).ok && input.events == Gather(old(input.events), missing).events
      ensures ok ==> data == Gather(old(input.events), missing).data
    {
      data := [];
      ok := true;
      ghost var goal := Gather(input.events, missing);
      while |data| < missing
        invariant |data| <= missing
        invariant var more := Gather(input.events, missing - |data|);
          more.ok == goal.ok && more.events == goal.events && (goal.ok ==> goal.data == data + more.data)
        decreases Length(input.events)
      {
        var got, part, late := input.Read(missing - |data|);
        if !got || late {
          return false, data;
        }
        data := data + part;
      }
    }

    /** The parsers are reset and the buffer is consumed. */
    method DropAll()
      requires Valid()
      modifies this`state, this`log
      ensures Valid() && From(end) == Dropped(parser, old(From(0)))
    {
      state, log := parser.start, [];
    }

    /** `rx_bulk_read` */
    method BulkRead() returns (parsed: nat)
      requires Valid() && AtHead(parser, From(0)) && parser.bulk(state)
      modifies input, this`state, this`ends, this`log, this`past
      ensures parsed <= end && From(parsed) == BulkTaken(parser, old(From(0)))
    {
      hide Behaves, Parsed, Gather;
      var wanted := parser.next(state);
      assert buffer[0..end] == buffer[..end];
      if wanted <= end {
        assert buffer[..end][..wanted] == buffer[..wanted] && buffer[..end][wanted..] == buffer[wanted..end];
        state, log := parser.bulkDone(state, buffer[..wanted]), log + buffer[..wanted];
        parsed := wanted;
      } else {
        var ok, more := ReadDirectly(wanted - end);
        if !ok {
          DropAll();
          return end;
        }
        state, log := parser.bulkDone(state, buffer[..end] + more), log + (buffer[..end] + more);
        parsed := end;
      }
      ghost var before := From(parsed);
      ResetIfEnded(parsed);
      EndedGood(parser, before);
      if parsed < end {
        parsed := BufferRead(parsed);
      } else {
        NothingParsed(parser, From(parsed));
      }
    }

    /** `rx_chunk_read` */
    method ChunkRead() returns (parsed: nat)
      requires Valid() && AtHead(parser, From(0))
      modifies input, this`state, this`ends, this`log, this`past, this`end, buffer
      ensures Valid() && parsed <= end && From(parsed) == ChunkTaken(parser, old(From(0)))
    {
      hide Behaves, Parsed;
      StartGood(parser);
      ghost var was := buffer[0..end];
      var ok, data, late := input.Read(BUFFER_SIZE - end);
      if !ok {
        DropAll();
        return end;
      }
      CopyIn(data);
      end := end + |data|;
      assert buffer[0..end] == was + data;
      if late {
        state, log := parser.start, [];
      }
      parsed := BufferRead(0);
    }

    method CopyIn(data: seq<byte>)
      requires end + |data| <= buffer.Length
      modifies buffer
      ensures buffer[..end + |data|] == old(buffer[..end]) + data
    {
      for k := 0 to |data|
        invariant buffer[..end + k] == old(buffer[..end]) + data[..k]
      {
        buffer[end + k] := data[k];
        assert buffer[..end + k + 1] == buffer[..end + k] + [data[k]];
        assert data[..k + 1] == data[..k] + [data[k]];
      }
      assert data[..|data|] == data;
    }

    /** What was parsed is moved out of the buffer. */
    method ShiftLeft(parsed: nat)
      requires Valid() && parsed <= end
      modifies this`end, buffer
      ensures Valid() && end == old(end) - parsed && From(0) == old(From(parsed))
    {
      ghost var rest := buffer[parsed..end];
      var left := end - parsed;
      forall i | 0 <= i < left {
        buffer[i] := buffer[parsed + i];
      }
      assert buffer[0..left] == rest;
      end := left;
    }

    /** One round of `cla_contact_rx_task`. */
    method OneRound()
      requires Valid() && AtHead(parser, From(0))
      modifies input, this`state, this`ends, this`log, this`past, this`end, buffer
      ensures Valid() && From(0) == Round(parser, old(From(0))) && AtHead(parser, From(0))
    {
      hide Behaves, BulkTaken, ChunkTaken;
      RoundKeepsHead(parser, From(0));
      TakenSmall(parser, From(0));
      var parsed;
      if parser.bulk(state) {
        parsed := BulkRead();
      } else {
        parsed := ChunkRead();
      }
      if parsed == end {
        assert buffer[parsed..end] == [] == buffer[0..0];
        end := 0;
      } else if parsed != 0 {
        ShiftLeft(parsed);
      } else if end == BUFFER_SIZE {
        DropAll();
        assert buffer[0..0] == [] == buffer[end..end];
        end := 0;
      }
    }

    /** The receive loop, for a number of rounds. */
    method Run(rounds: nat)
      requires Valid() && AtHead(parser, From(0))
      modifies input, this`state, this`ends, this`log, this`past, this`end, buffer
      ensures Valid() && From(0) == Rounds(parser, old(From(0)), rounds)
    {
      hide Behaves, Round;
      for i := 0 to rounds
        invariant Valid() && AtHead(parser, From(0)) && From(0) == Rounds(parser, old(From(0)), i)
      {
        OneRound();
      }
    }
  }
}
