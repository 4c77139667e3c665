/** Properties of whole runs of the bundle processor: duplicate suppression,
    accounting, and that what is delivered was sent. From the first event at which
    a freed bundle is linked into the reassembly list on, a run has no defined
    meaning; the results are about runs up to there. */
module Delivery {
  import opened Octets
  import opened KnownBundles
  import opened Reassembly
  import opened BundleProcessor

  /** A bundle given to local delivery at a time; `heap` is the content of the
      memory a reassembly buffer would be allocated from. */
  datatype Event = Event(b: Incoming, now: nat, heap: nat -> byte)

  const Start := State([], [], [], [])

  function Run(events: seq<Event>): (s: State)
    ensures SlotsFilled(s.slots)
  {
    if events == [] then Start
    else
      var e := events[|events| - 1];
      Deliver(Run(events[..|events| - 1]), e.b, e.now, e.heap)
  }

  function Last(events: seq<Event>): Event
    requires events != []
  {
    events[|events| - 1]
  }

  function Init(events: seq<Event>): seq<Event>
    requires events != []
  {
    events[..|events| - 1]
  }

  // ---- Duplicate suppression

  predicate Suppressed(s: State, e: Event) {
    Record(s.known, Entry(IdOf(e.b), e.b.deadline), e.now).0
  }

  /** The fragments a step completes to an ADU, or none. */
  function Completed(s: State, e: Event): (r: seq<Incoming>)
    requires SlotsFilled(s.slots)
  {
    if Suppressed(s, e) || !IsFragment(e.b) then []
    else
      var slot := AddFragment(s.slots, e.b)[FindSlot(s.slots, KeyOf(e.b), 0)];
      if CanReassemble(slot, 0) then slot else []
  }

  /** Identities of the ADUs a step delivers. */
  function DeliveredIds(s: State, e: Event): set<BundleId>
    requires SlotsFilled(s.slots)
  {
    if Suppressed(s, e) then {}
    else if !IsFragment(e.b) then {IdOf(e.b)}
    else if Completed(s, e) != [] then {ReassembledId(Completed(s, e)[0])}
    else {}
  }

  /** Identities recorded in the course of a run: those of the bundles that had
      not expired on arrival, and those of reassembled originals. */
  function Recorded(events: seq<Event>): set<BundleId> {
    if events == [] then {}
    else
      var e := Last(events);
      Recorded(Init(events)) + DeliveredIds(Run(Init(events)), e)
      + (if e.b.deadline >= e.now then {IdOf(e.b)} else {})
  }

  /** A bundle's identity fixes its deadline, and time does not run backwards. */
  predicate Orderly(events: seq<Event>, deadline: ParentId -> nat) {
    && (forall i :: 0 <= i < |events| ==> events[i].b.deadline == deadline(ParentOf(events[i].b)))
    && (forall i, j :: 0 <= i < j < |events| ==> events[i].now <= events[j].now)
  }

  /** The list holds exactly the recorded identities that can still arrive. */
  predicate ListExact(list: seq<Entry>, ids: set<BundleId>, deadline: ParentId -> nat, now: nat) {
    && Sorted(list)
    && (forall x :: x in list ==> x.id in ids && x.deadline == deadline(x.id.parent))
    && (forall id :: id in ids && deadline(id.parent) >= now ==> Entry(id, deadline(id.parent)) in list)
  }

  lemma RecordExact(list: seq<Entry>, ids: set<BundleId>, deadline: ParentId -> nat, before: nat, id: BundleId,
                    now: nat)
    requires ListExact(list, ids, deadline, before) && before <= now
    ensures var e := Entry(id, deadline(id.parent));
      && (Record(list, e, now).0 <==> e.deadline < now || id in ids)
      && ListExact(Record(list, e, now).1, ids + (if e.deadline >= now then {id} else {}), deadline, now)
  {
    var e := Entry(id, deadline(id.parent));
    if e.deadline >= now {
      SearchAnswers(list, e, now);
      SearchKeepsOrder(list, e, now);
      SearchLists(list, e, now);
      var r := Search(list, e, now).1;
      forall x | x in r ensures x.id in ids + {id} && x.deadline == deadline(x.id.parent) {
        SearchKeeps(list, e, now, x);
      }
      forall i | i in ids + {id} && deadline(i.parent) >= now ensures Entry(i, deadline(i.parent)) in r {
        SearchKeeps(list, e, now, Entry(i, deadline(i.parent)));
      }
    }
  }

  lemma InsertExact(list: seq<Entry>, ids: set<BundleId>, deadline: ParentId -> nat, now: nat, id: BundleId)
    requires ListExact(list, ids, deadline, now)
    ensures ListExact(Insert(list, Entry(id, deadline(id.parent))), ids + {id}, deadline, now)
  {
    var e := Entry(id, deadline(id.parent));
    var r := Insert(list, e);
    InsertKeepsOrder(list, e);
    forall x | x in r ensures x.id in ids + {id} && x.deadline == deadline(x.id.parent) {
      InsertContents(list, e, x);
    }
    forall i | i in ids + {id} && deadline(i.parent) >= now ensures Entry(i, deadline(i.parent)) in r {
      InsertContents(list, e, Entry(i, deadline(i.parent)));
    }
  }

  predicate SlotsOrderly(slots: seq<seq<Incoming>>, deadline: ParentId -> nat) {
    forall i, j :: 0 <= i < |slots| && 0 <= j < |slots[i]| ==>
      slots[i][j].deadline == deadline(ParentOf(slots[i][j]))
  }

  lemma {:induction false} InsertByOffsetContents(slot: seq<Incoming>, b: Incoming)
    ensures forall x :: x in InsertByOffset(slot, b) <==> x == b || x in slot
  {
    if slot != [] && slot[0].offset <= b.offset {
      InsertByOffsetContents(slot[1..], b);
      assert slot == [slot[0]] + slot[1..];
    }
  }

  lemma AddFragmentOrderly(slots: seq<seq<Incoming>>, b: Incoming, deadline: ParentId -> nat)
    requires SlotsFilled(slots) && SlotsOrderly(slots, deadline) && b.deadline == deadline(ParentOf(b))
    ensures SlotsOrderly(AddFragment(slots, b), deadline)
  {
    var i := FindSlot(slots, KeyOf(b), 0);
    if i < |slots| {
      var slot := InsertByOffset(slots[i], b);
      InsertByOffsetContents(slots[i], b);
      assert forall j :: 0 <= j < |slot| ==> slot[j] in slot;
    }
  }

  /** What every step does to the known list, the slots and the ADU log. */
  lemma DeliverEffect(s: State, e: Event)
    requires SlotsFilled(s.slots)
    ensures var r := Deliver(s, e.b, e.now, e.heap);
      var list := Record(s.known, Entry(IdOf(e.b), e.b.deadline), e.now).1;
      var done := Completed(s, e);
      && r.known == (if done == [] then list
                     else Insert(list, Entry(ReassembledId(done[0]), done[0].deadline)))
      && r.delivered == s.delivered +
           (if Suppressed(s, e) then []
            else if !IsFragment(e.b) then [AduOf(e.b, e.b.payload)]
            else if done == [] then []
            else [AduOf(done[0], CopyFrom(done, Fresh(done[0].total, e.heap), 0))])
      && r.slots == (if Suppressed(s, e) || !IsFragment(e.b) then s.slots
                     else
                       var i := FindSlot(s.slots, KeyOf(e.b), 0);
                       var slots := AddFragment(s.slots, e.b);
                       if done == [] then slots else slots[..i] + slots[i + 1..])
  {
    hide CanReassemble, CopyFrom, InsertByOffset, Search, Insert;
    assert s.delivered + [] == s.delivered;
  }

  lemma {:induction false} RunExact(events: seq<Event>, deadline: ParentId -> nat, now: nat)
    requires Orderly(events, deadline)
    requires forall i :: 0 <= i < |events| ==> events[i].now <= now
    ensures ListExact(Run(events).known, Recorded(events), deadline, now)
    ensures SlotsOrderly(Run(events).slots, deadline)
  {
    if events != [] {
      var e, s := Last(events), Run(Init(events));
      RunExact(Init(events), deadline, e.now);
      StepExact(s, Recorded(Init(events)), e, deadline);
      ListExactLater(Run(events).known, Recorded(events), deadline, e.now, now);
    }
  }

  lemma ListExactLater(list: seq<Entry>, ids: set<BundleId>, deadline: ParentId -> nat, now: nat, later: nat)
    requires ListExact(list, ids, deadline, now) && now <= later
    ensures ListExact(list, ids, deadline, later)
  {
  }

  lemma StepExact(s: State, ids: set<BundleId>, e: Event, deadline: ParentId -> nat)
    requires SlotsFilled(s.slots) && SlotsOrderly(s.slots, deadline)
    requires ListExact(s.known, ids, deadline, e.now)
    requires e.b.deadline == deadline(ParentOf(e.b))
    ensures var r := Deliver(s, e.b, e.now, e.heap);
      && SlotsOrderly(r.slots, deadline)
      && ListExact(r.known, ids + DeliveredIds(s, e) + (if e.b.deadline >= e.now then {IdOf(e.b)} else {}),
                   deadline, e.now)
    ensures Suppressed(s, e) <==> e.b.deadline < e.now || IdOf(e.b) in ids
  {
    hide Deliver, Record, ListExact, CanReassemble, InsertByOffset, Insert, CopyFrom;
    DeliverEffect(s, e);
    var list := Record(s.known, Entry(IdOf(e.b), e.b.deadline), e.now).1;
    RecordExact(s.known, ids, deadline, e.now, IdOf(e.b), e.now);
    var recorded := ids + (if e.b.deadline >= e.now then {IdOf(e.b)} else {});
    AddFragmentOrderly(s.slots, e.b, deadline);
    var done := Completed(s, e);
    var all := ids + DeliveredIds(s, e) + (if e.b.deadline >= e.now then {IdOf(e.b)} else {});
    if done != [] {
      assert all == recorded + {ReassembledId(done[0])};
      InsertExact(list, recorded, deadline, e.now, ReassembledId(done[0]));
    } else {
      assert all == recorded;
    }
  }

  /** In every run in which identities fix deadlines and the clock does not run
      backwards, the early-exit, self-cleaning search says "known" exactly for
      the bundles that have expired or whose identity was recorded before. */
  lemma KnownExactlyWhenRecorded(events: seq<Event>, e: Event, deadline: ParentId -> nat)
    requires Orderly(events + [e], deadline)
    ensures Suppressed(Run(events), e) <==> e.b.deadline < e.now || IdOf(e.b) in Recorded(events)
  {
    var all := events + [e];
    assert forall i :: 0 <= i < |events| ==> events[i] == all[i];
    assert all[|events|] == e;
    RunExact(events, deadline, e.now);
    StepExact(Run(events), Recorded(events), e, deadline);
  }

  lemma {:induction false} RecordedGrows(events: seq<Event>, i: nat, j: nat)
    requires i <= j <= |events|
    ensures Recorded(events[..i]) <= Recorded(events[..j])
    decreases j - i
  {
    if i < j {
      RecordedGrows(events, i, j - 1);
      assert Init(events[..j]) == events[..j - 1];
    }
  }

  /** An unfragmented bundle is never delivered after an ADU of the same identity
      was, be it as a whole bundle or reassembled from fragments. */
  lemma WholeBundleDeliveredOnce(events: seq<Event>, deadline: ParentId -> nat, i: nat, j: nat)
    requires Orderly(events, deadline) && i < j < |events|
    requires !IsFragment(events[j].b)
    requires IdOf(events[j].b) in DeliveredIds(Run(events[..i]), events[i])
    ensures Run(events[..j + 1]).delivered == Run(events[..j]).delivered
  {
    hide Run, Recorded, Deliver, Record, Orderly, DeliveredIds;
    RunStep(events, i);
    RecordedGrows(events, i + 1, j);
    RunStep(events, j);
    OrderlyPrefix(events, deadline, j);
    KnownExactlyWhenRecorded(events[..j], events[j], deadline);
    DeliverEffect(Run(events[..j]), events[j]);
    assert Run(events[..j]).delivered + [] == Run(events[..j]).delivered;
  }

  lemma RunStep(events: seq<Event>, i: nat)
    requires i < |events|
    ensures Run(events[..i + 1]) == Deliver(Run(events[..i]), events[i].b, events[i].now, events[i].heap)
    ensures DeliveredIds(Run(events[..i]), events[i]) <= Recorded(events[..i + 1])
  {
    hide Deliver, DeliveredIds;
    assert Init(events[..i + 1]) == events[..i] && Last(events[..i + 1]) == events[i];
  }

  lemma OrderlyPrefix(events: seq<Event>, deadline: ParentId -> nat, j: nat)
    requires Orderly(events, deadline) && j < |events|
    ensures Orderly(events[..j] + [events[j]], deadline)
  {
    assert events[..j] + [events[j]] == events[..j + 1];
  }

  // ---- What becomes of the bundles

  /** Bundles held in reassembly slots, and bundles freed. */
  function Accounted(s: State): multiset<Incoming> {
    multiset(Concat(s.slots)) + multiset(s.discarded)
  }

  /** A fragment that is freed because its original counts as delivered, and put
      into the reassembly list all the same. */
  predicate DiscardedButKept(s: State, e: Event) {
    var (found, list) := Record(s.known, Entry(IdOf(e.b), e.b.deadline), e.now);
    !found && IsFragment(e.b) && OriginalKnown(s.(known := list), e.b)
  }

  lemma {:induction false} InsertByOffsetCount(slot: seq<Incoming>, b: Incoming)
    ensures multiset(InsertByOffset(slot, b)) == multiset(slot) + multiset{b}
  {
    if slot != [] && slot[0].offset <= b.offset {
      InsertByOffsetCount(slot[1..], b);
      assert slot == [slot[0]] + slot[1..];
    }
  }

  lemma AddFragmentCount(slots: seq<seq<Incoming>>, b: Incoming)
    requires SlotsFilled(slots)
    ensures multiset(Concat(AddFragment(slots, b))) == multiset(Concat(slots)) + multiset{b}
  {
    hide InsertByOffset;
    var i := FindSlot(slots, KeyOf(b), 0);
    if i < |slots| {
      var added := slots[i := InsertByOffset(slots[i], b)];
      ConcatAround(slots, i);
      ConcatAround(added, i);
      InsertByOffsetCount(slots[i], b);
      assert added[..i] + added[i + 1..] == slots[..i] + slots[i + 1..];
    } else {
      ConcatAppend(slots, [[b]]);
      assert Concat([[b]]) == [b];
    }
  }

  lemma StepAccount(s: State, e: Event)
    requires SlotsFilled(s.slots)
    ensures Accounted(Deliver(s, e.b, e.now, e.heap))
         == Accounted(s) + multiset{e.b} + (if DiscardedButKept(s, e) then multiset{e.b} else multiset{})
  {
    hide Deliver, DiscardedButKept, AddFragment, Concat, CanReassemble, Completed;
    var r := Deliver(s, e.b, e.now, e.heap);
    DeliverEffect(s, e);
    DiscardEffect(s, e);
    NothingCompleted(s, e);
    if Suppressed(s, e) || !IsFragment(e.b) {
      assert multiset(r.discarded) == multiset(s.discarded) + multiset{e.b};
      assert Accounted(r) == Accounted(s) + multiset{e.b};
    } else {
      var kept := if DiscardedButKept(s, e) then [e.b] else [];
      FragmentSlotsCount(s, e);
      assert multiset(r.discarded) == multiset(s.discarded) + multiset(kept) + multiset(Completed(s, e));
      Balance(multiset(Concat(r.slots)), multiset(Completed(s, e)), multiset(Concat(s.slots)),
              multiset(s.discarded), multiset(kept), multiset{e.b});
    }
  }

  lemma Balance(after: multiset<Incoming>, done: multiset<Incoming>, before: multiset<Incoming>,
                discarded: multiset<Incoming>, kept: multiset<Incoming>, new_: multiset<Incoming>)
    requires after + done == before + new_
    ensures after + (discarded + kept + done) == before + discarded + new_ + kept
  {
    assert after + (discarded + kept + done) == (after + done) + (discarded + kept);
  }

  lemma NothingCompleted(s: State, e: Event)
    requires SlotsFilled(s.slots)
    ensures Suppressed(s, e) || !IsFragment(e.b) ==> Completed(s, e) == []
  {
  }

  lemma FragmentSlotsCount(s: State, e: Event)
    requires SlotsFilled(s.slots) && !Suppressed(s, e) && IsFragment(e.b)
    ensures multiset(Concat(Deliver(s, e.b, e.now, e.heap).slots)) + multiset(Completed(s, e))
         == multiset(Concat(s.slots)) + multiset{e.b}
  {
    hide Deliver, AddFragment, Concat, CanReassemble;
    DeliverEffect(s, e);
    AddFragmentCount(s.slots, e.b);
    ConcatAround(AddFragment(s.slots, e.b), FindSlot(s.slots, KeyOf(e.b), 0));
  }

  lemma DiscardEffect(s: State, e: Event)
    requires SlotsFilled(s.slots)
    ensures Deliver(s, e.b, e.now, e.heap).discarded
         == s.discarded
            + (if Suppressed(s, e) || !IsFragment(e.b) || DiscardedButKept(s, e) then [e.b] else [])
            + Completed(s, e)
    ensures DiscardedButKept(s, e) ==> !Suppressed(s, e) && IsFragment(e.b)
  {
    hide Record, CanReassemble, CopyFrom, InsertByOffset, AddFragment, FindReassembled;
    assert s.discarded + [e.b] + [] == s.discarded + [e.b];
    assert s.discarded + [] + [] == s.discarded;
    assert s.discarded + [] == s.discarded;
  }

  function Arrivals(events: seq<Event>): multiset<Incoming> {
    if events == [] then multiset{} else Arrivals(Init(events)) + multiset{Last(events).b}
  }

  /** The bundles that were linked after they had been freed. */
  function KeptAfterDiscard(events: seq<Event>): multiset<Incoming> {
    if events == [] then multiset{}
    else
      KeptAfterDiscard(Init(events))
      + (if DiscardedButKept(Run(Init(events)), Last(events)) then multiset{Last(events).b} else multiset{})
  }

  /** No bundle is linked after it was freed. */
  predicate Safe(events: seq<Event>) {
    KeptAfterDiscard(events) == multiset{}
  }

  lemma SafeStep(events: seq<Event>)
    requires events != []
    ensures Safe(events) <==> Safe(Init(events)) && !DiscardedButKept(Run(Init(events)), Last(events))
  {
    hide DiscardedButKept;
    if DiscardedButKept(Run(Init(events)), Last(events)) {
      assert Last(events).b in KeptAfterDiscard(events);
    }
  }

  lemma {:induction false} SafeEverywhere(events: seq<Event>)
    ensures Safe(events) <==> forall k :: 0 <= k < |events| ==> !DiscardedButKept(Run(events[..k]), events[k])
  {
    hide DiscardedButKept, Run;
    if events != [] {
      var init := Init(events);
      SafeEverywhere(init);
      SafeStep(events);
      assert events[..|init|] == init;
      forall k | 0 <= k < |init| ensures init[..k] == events[..k] && init[k] == events[k] {
      }
    }
  }

  /** Up to and including the first event at which a freed bundle is linked, each
      arrived bundle is held in one slot or was freed once, except that bundle:
      it counts twice. */
  lemma {:induction false} BundlesAccounted(events: seq<Event>)
    requires events == [] || Safe(Init(events))
    ensures Accounted(Run(events)) == Arrivals(events) + KeptAfterDiscard(events)
  {
    hide Deliver, DiscardedButKept, Accounted, Safe;
    if events == [] {
      StartAccount();
    } else {
      var init := Init(events);
      if init != [] {
        SafeStep(init);
      }
      BundlesAccounted(init);
      StepAccount(Run(init), Last(events));
    }
  }

  lemma StartAccount()
    ensures Accounted(Start) == multiset{}
  {
  }

  // ---- What is delivered was sent

  /** A copy or a fragment of this ADU. Fragments may overlap, nest, repeat, come
      from several fragmentations, or come late. */
  predicate CarriesAdu(b: Incoming, adu: seq<byte>) {
    if IsFragment(b) then InRange(b) && b.total == |adu| && AgreesWith(b, adu) else b.payload == adu
  }

  predicate SlotCarries(slot: seq<Incoming>, key: Key, adu: seq<byte>) {
    && (forall i, j :: 0 <= i < |slot| && 0 <= j < |slot| ==> KeyOf(slot[i]) == KeyOf(slot[j]))
    && (forall i :: 0 <= i < |slot| && KeyOf(slot[i]) == key ==> IsFragment(slot[i]) && CarriesAdu(slot[i], adu))
  }

  predicate Carries(s: State, key: Key, adu: seq<byte>) {
    && (forall i :: 0 <= i < |s.slots| ==> SlotCarries(s.slots[i], key, adu))
    && (forall i :: 0 <= i < |s.delivered| && AduKey(s.delivered[i]) == key ==> s.delivered[i].payload == adu)
  }

  function AduKey(a: Adu): Key {
    Key(a.creationMs, a.sequence, a.source)
  }

  lemma {:induction false} InsertedFrom(slot: seq<Incoming>, b: Incoming, x: Incoming)
    requires x in InsertByOffset(slot, b)
    ensures x == b || x in slot
  {
    if slot != [] && slot[0].offset <= b.offset && x != slot[0] {
      InsertedFrom(slot[1..], b, x);
    }
  }

  lemma InsertedCarries(slot: seq<Incoming>, b: Incoming, key: Key, adu: seq<byte>)
    requires SlotCarries(slot, key, adu) && slot != [] && KeyOf(slot[0]) == KeyOf(b) && IsFragment(b)
    requires KeyOf(b) == key ==> CarriesAdu(b, adu)
    ensures SlotCarries(InsertByOffset(slot, b), key, adu)
  {
    hide InsertByOffset, CarriesAdu;
    var r := InsertByOffset(slot, b);
    forall i | 0 <= i < |r|
      ensures KeyOf(r[i]) == KeyOf(b) && (KeyOf(r[i]) == key ==> IsFragment(r[i]) && CarriesAdu(r[i], adu))
    {
      InsertedFrom(slot, b, r[i]);
    }
  }

  lemma AddCarries(slots: seq<seq<Incoming>>, b: Incoming, key: Key, adu: seq<byte>)
    requires SlotsFilled(slots) && (forall i :: 0 <= i < |slots| ==> SlotCarries(slots[i], key, adu)) && IsFragment(b)
    requires KeyOf(b) == key ==> CarriesAdu(b, adu)
    ensures forall i :: 0 <= i < |AddFragment(slots, b)| ==> SlotCarries(AddFragment(slots, b)[i], key, adu)
  {
    hide InsertByOffset, CarriesAdu;
    var i := FindSlot(slots, KeyOf(b), 0);
    if i < |slots| {
      InsertedCarries(slots[i], b, key, adu);
    }
  }

  lemma TryCarries(s: State, i: nat, heap: nat -> byte, key: Key, adu: seq<byte>)
    requires SlotsFilled(s.slots) && i < |s.slots| && Carries(s, key, adu) && |adu| < TWO_32
    ensures Carries(TryReassemble(s, i, heap), key, adu)
  {
    hide CanReassemble, CopyFrom, SlotCarries;
    var frags := s.slots[i];
    if CanReassemble(frags, 0) && KeyOf(frags[0]) == key {
      assert SlotCarries(frags, key, adu);
      SlotConsistent(frags, key, adu);
      ReassemblySound(frags, adu, heap);
    }
  }

  lemma SlotConsistent(frags: seq<Incoming>, key: Key, adu: seq<byte>)
    requires SlotCarries(frags, key, adu) && frags != [] && KeyOf(frags[0]) == key
    ensures Consistent(frags, adu) && frags[0].total == |adu|
  {
    hide AgreesWith;
    assert forall i :: 0 <= i < |frags| ==> KeyOf(frags[i]) == KeyOf(frags[0]);
  }

  /** In every run in which no freed bundle is linked, whatever else arrives: if
      all arrivals with this key carry this ADU, everything delivered for the key
      is this ADU. */
  lemma {:induction false} DeliveredWasSent(events: seq<Event>, key: Key, adu: seq<byte>)
    requires |adu| < TWO_32 && Safe(events)
    requires forall k :: 0 <= k < |events| && KeyOf(events[k].b) == key ==> CarriesAdu(events[k].b, adu)
    ensures Carries(Run(events), key, adu)
  {
    hide CarriesAdu, Record, SlotCarries, AddFragment, TryReassemble, Safe;
    if events != [] {
      SafeStep(events);
      DeliveredWasSent(Init(events), key, adu);
      var s, e := Run(Init(events)), Last(events);
      if !Suppressed(s, e) && IsFragment(e.b) {
        AddCarries(s.slots, e.b, key, adu);
        var list := Record(s.known, Entry(IdOf(e.b), e.b.deadline), e.now).1;
        var t := s.(known := list);
        var u := if OriginalKnown(t, e.b) then t.(discarded := t.discarded + [e.b]) else t;
        TryCarries(u.(slots := AddFragment(s.slots, e.b)), FindSlot(s.slots, KeyOf(e.b), 0), e.heap, key, adu);
      } else if !IsFragment(e.b) && KeyOf(e.b) == key {
        WholeCarries(e.b, adu);
      }
    }
  }

  lemma WholeCarries(b: Incoming, adu: seq<byte>)
    requires CarriesAdu(b, adu) && !IsFragment(b)
    ensures b.payload == adu && AduKey(AduOf(b, b.payload)) == KeyOf(b)
  {
  }
}
