/** The fragments of an ADU, arriving in any order, repeated and mixed with any
    other bundles and with copies of the whole bundle, deliver it at most once; a
    freed fragment is used exactly when one comes for the first time after a copy
    of the whole bundle. */
module ExactlyOnce {
  import opened Octets
  import opened KnownBundles
  import opened Reassembly
  import opened BundleProcessor
  import opened Delivery
  import MemorySafety
  import BundleMemory
  import Bundle7
  import Fragmentation
  import RoutePlanning

  // ---- Families of fragments

  /** Fragments that cut `adu` into consecutive non-empty pieces. */
  predicate Family(fs: seq<Incoming>, adu: seq<byte>) {
    && |fs| >= 2 && |adu| < TWO_32
    && fs[0].offset == 0
    && fs[|fs| - 1].offset + |fs[|fs| - 1].payload| == |adu|
    && (forall i :: 0 <= i < |fs| - 1 ==> fs[i].offset + |fs[i].payload| == fs[i + 1].offset)
    && (forall i :: 0 <= i < |fs| ==>
          && IsFragment(fs[i]) && |fs[i].payload| > 0
          && fs[i].offset + |fs[i].payload| <= |adu| == fs[i].total
          && AgreesWith(fs[i], adu)
          && ParentOf(fs[i]) == ParentOf(fs[0]) && fs[i].deadline == fs[0].deadline)
  }

  predicate Arrives(events: seq<Event>, b: Incoming) {
    exists k :: 0 <= k < |events| && events[k].b == b
  }

  function Arrived(fs: seq<Incoming>, events: seq<Event>): set<nat> {
    set i: nat | i < |fs| && Arrives(events, fs[i])
  }

  predicate Complete(fs: seq<Incoming>, a: set<nat>) {
    forall i :: 0 <= i < |fs| ==> i in a
  }

  /** The unfragmented bundle the fragments were made from. */
  predicate Original(whole: Incoming, fs: seq<Incoming>, adu: seq<byte>)
    requires fs != []
  {
    && !IsFragment(whole) && whole.payload == adu && whole.offset == 0
    && ParentOf(whole) == ParentOf(fs[0]) && whole.deadline == fs[0].deadline
  }

  /** Of this ADU, only members of the family and copies of the original arrive,
      before their deadline; any other bundles may. The clock does not run
      backwards. */
  predicate Mixed(fs: seq<Incoming>, whole: Incoming, events: seq<Event>) {
    && fs != []
    && (forall i, j :: 0 <= i < j < |events| ==> events[i].now <= events[j].now)
    && forall k :: 0 <= k < |events| && KeyOf(events[k].b) == KeyOf(fs[0]) ==>
      (events[k].b in fs || events[k].b == whole) && events[k].now <= fs[0].deadline
  }

  /** A copy of the original arrives while fragments are still missing. */
  predicate WholeFirst(fs: seq<Incoming>, whole: Incoming, events: seq<Event>) {
    exists k :: 0 <= k < |events| && events[k].b == whole && !Complete(fs, Arrived(fs, events[..k]))
  }

  /** The fragments of a family with the given indices, in order. */
  function Pick(fs: seq<Incoming>, a: set<nat>, from: nat): seq<Incoming>
    requires from <= |fs|
    decreases |fs| - from
  {
    if from == |fs| then []
    else (if from in a then [fs[from]] else []) + Pick(fs, a, from + 1)
  }

  lemma {:induction false} OffsetsIncrease(fs: seq<Incoming>, adu: seq<byte>, i: nat, j: nat)
    requires Family(fs, adu) && i < j < |fs|
    ensures fs[i].offset + |fs[i].payload| <= fs[j].offset
    decreases j
  {
    if i < j - 1 {
      OffsetsIncrease(fs, adu, i, j - 1);
    }
  }

  lemma {:induction false} PickMembers(fs: seq<Incoming>, a: set<nat>, from: nat, x: Incoming)
    requires from <= |fs|
    ensures x in Pick(fs, a, from) <==> exists i :: from <= i < |fs| && i in a && fs[i] == x
    decreases |fs| - from
  {
    if from < |fs| {
      PickMembers(fs, a, from + 1, x);
    }
  }

  lemma PickStep(fs: seq<Incoming>, a: set<nat>, from: nat)
    requires from < |fs|
    ensures Pick(fs, a, from) == (if from in a then [fs[from]] else []) + Pick(fs, a, from + 1)
    ensures from + 1 == |fs| ==> Pick(fs, a, from + 1) == []
  {
  }

  /** Offset-ordered insertion keeps the slot the ordered selection. */
  lemma {:induction false} InsertPick(fs: seq<Incoming>, adu: seq<byte>, a: set<nat>, from: nat, j: nat)
    requires Family(fs, adu) && from <= j < |fs| && j !in a
    ensures InsertByOffset(Pick(fs, a, from), fs[j]) == Pick(fs, a + {j}, from)
    decreases |fs| - from
  {
    hide Pick, AgreesWith;
    var rest := Pick(fs, a, from + 1);
    PickStep(fs, a, from);
    PickStep(fs, a + {j}, from);
    if from == j {
      PickAbsent(fs, a, j, j + 1);
      if rest != [] {
        PickMembers(fs, a, j + 1, rest[0]);
        var i :| j + 1 <= i < |fs| && i in a && fs[i] == rest[0];
        OffsetsIncrease(fs, adu, j, i);
      }
      assert [] + rest == rest;
    } else {
      InsertPick(fs, adu, a, from + 1, j);
      OffsetsIncrease(fs, adu, from, j);
      if from in a {
        assert ([fs[from]] + rest)[1..] == rest;
      } else {
        assert [] + rest == rest && [] + Pick(fs, a + {j}, from + 1) == Pick(fs, a + {j}, from + 1);
      }
    }
  }

  lemma {:induction false} PickAbsent(fs: seq<Incoming>, a: set<nat>, j: nat, from: nat)
    requires j < from <= |fs|
    ensures Pick(fs, a + {j}, from) == Pick(fs, a, from)
    decreases |fs| - from
  {
    if from < |fs| {
      PickAbsent(fs, a, j, from + 1);
    }
  }

  /** A selection passes the check exactly when nothing is missing. */
  lemma {:induction false} PickComplete(fs: seq<Incoming>, adu: seq<byte>, a: set<nat>, from: nat)
    requires Family(fs, adu) && from < |fs|
    ensures CanReassemble(Pick(fs, a, from), fs[from].offset)
       <==> (forall i :: from <= i < |fs| ==> i in a)
    decreases |fs| - from
  {
    hide AgreesWith, Pick;
    var rest := Pick(fs, a, from + 1);
    PickStep(fs, a, from);
    if from in a {
      assert ([fs[from]] + rest)[1..] == rest;
      if from + 1 < |fs| {
        PickComplete(fs, adu, a, from + 1);
        OffsetsIncrease(fs, adu, from, |fs| - 1);
        assert End(fs[from]) == fs[from + 1].offset < |adu|;
      }
    } else {
      assert Pick(fs, a, from) == rest;
      if rest != [] {
        PickMembers(fs, a, from + 1, rest[0]);
        var i :| from + 1 <= i < |fs| && i in a && fs[i] == rest[0];
        OffsetsIncrease(fs, adu, from, i);
      }
    }
  }

  lemma PickConsistent(fs: seq<Incoming>, adu: seq<byte>, a: set<nat>)
    requires Family(fs, adu)
    ensures Consistent(Pick(fs, a, 0), adu)
  {
    var p := Pick(fs, a, 0);
    forall i | 0 <= i < |p| ensures InRange(p[i]) && p[i].total == |adu| && AgreesWith(p[i], adu) {
      PickMembers(fs, a, 0, p[i]);
    }
  }

  // ---- The slot of one key

  predicate DistinctKeys(slots: seq<seq<Incoming>>)
    requires SlotsFilled(slots)
  {
    forall i, j :: 0 <= i < j < |slots| ==> KeyOf(slots[i][0]) != KeyOf(slots[j][0])
  }

  predicate NoSlot(slots: seq<seq<Incoming>>, key: Key)
    requires SlotsFilled(slots)
  {
    forall i :: 0 <= i < |slots| ==> KeyOf(slots[i][0]) != key
  }

  predicate HasSlot(slots: seq<seq<Incoming>>, key: Key, frags: seq<Incoming>)
    requires SlotsFilled(slots)
  {
    frags != [] && KeyOf(frags[0]) == key && frags in slots
  }

  lemma InsertKeepsKey(slot: seq<Incoming>, b: Incoming)
    requires slot != [] && KeyOf(slot[0]) == KeyOf(b)
    ensures KeyOf(InsertByOffset(slot, b)[0]) == KeyOf(b)
  {
  }

  lemma AddFragmentKeys(slots: seq<seq<Incoming>>, b: Incoming)
    requires SlotsFilled(slots) && DistinctKeys(slots)
    ensures DistinctKeys(AddFragment(slots, b))
    ensures KeyOf(AddFragment(slots, b)[FindSlot(slots, KeyOf(b), 0)][0]) == KeyOf(b)
  {
    var i := FindSlot(slots, KeyOf(b), 0);
    if i < |slots| {
      InsertKeepsKey(slots[i], b);
    }
  }

  /** Fragments of other ADUs do not touch the slot. */
  lemma OtherFragment(slots: seq<seq<Incoming>>, b: Incoming, key: Key, frags: seq<Incoming>, remove: bool)
    requires SlotsFilled(slots) && DistinctKeys(slots) && KeyOf(b) != key
    ensures var i := FindSlot(slots, KeyOf(b), 0);
      var added := AddFragment(slots, b);
      var r := if remove then added[..i] + added[i + 1..] else added;
      && SlotsFilled(r) && DistinctKeys(r)
      && (NoSlot(slots, key) ==> NoSlot(r, key))
      && (HasSlot(slots, key, frags) ==> HasSlot(r, key, frags))
  {
    hide InsertByOffset;
    AddFragmentKeys(slots, b);
    var i := FindSlot(slots, KeyOf(b), 0);
    var added := AddFragment(slots, b);
    var r := if remove then added[..i] + added[i + 1..] else added;
    if HasSlot(slots, key, frags) {
      var k :| 0 <= k < |slots| && slots[k] == frags;
      assert added[k] == frags;
      assert if remove && k > i then r[k - 1] == frags else r[k] == frags;
    }
  }

  /** A fragment of the ADU goes into its slot, which disappears if completed. */
  lemma OwnFragment(slots: seq<seq<Incoming>>, b: Incoming, frags: seq<Incoming>)
    requires SlotsFilled(slots) && DistinctKeys(slots)
    requires if frags == [] then NoSlot(slots, KeyOf(b)) else HasSlot(slots, KeyOf(b), frags)
    ensures var i := FindSlot(slots, KeyOf(b), 0);
      var added := AddFragment(slots, b);
      && added[i] == InsertByOffset(frags, b)
      && DistinctKeys(added) && HasSlot(added, KeyOf(b), InsertByOffset(frags, b))
      && DistinctKeys(added[..i] + added[i + 1..])
      && NoSlot(added[..i] + added[i + 1..], KeyOf(b))
  {
    AddFragmentKeys(slots, b);
    hide InsertByOffset;
    var i := FindSlot(slots, KeyOf(b), 0);
    if frags != [] {
      var k :| 0 <= k < |slots| && slots[k] == frags;
      assert k == i;
    } else {
      assert InsertByOffset([], b) == [b] by { InsertIntoEmpty(b); }
    }
    var added := AddFragment(slots, b);
    assert added[i] in added;
  }

  lemma InsertIntoEmpty(b: Incoming)
    ensures InsertByOffset([], b) == [b]
  {
  }

  // ---- The invariant of a run

  /** The ADUs of one key, in the order of their delivery. */
  function DeliveredFor(delivered: seq<Adu>, key: Key): seq<Adu> {
    if delivered == [] then []
    else
      var a := delivered[|delivered| - 1];
      DeliveredFor(delivered[..|delivered| - 1], key) + (if AduKey(a) == key then [a] else [])
  }

  lemma DeliveredForAppend(delivered: seq<Adu>, a: Adu, key: Key)
    ensures DeliveredFor(delivered + [a], key)
         == DeliveredFor(delivered, key) + (if AduKey(a) == key then [a] else [])
  {
    assert (delivered + [a])[..|delivered|] == delivered;
  }

  function ParentKey(p: ParentId): Key {
    Key(p.creationMs, p.sequence, p.source)
  }

  /** How far a run got: the fragments that arrived, and whether a copy of the
      original was delivered. */
  datatype Progress = Progress(arrived: set<nat>, whole: bool)

  function AddArrived(p: Progress, j: nat): Progress {
    p.(arrived := p.arrived + {j})
  }

  predicate Delivered(fs: seq<Incoming>, p: Progress) {
    p.whole || Complete(fs, p.arrived)
  }

  /** Until the deadline has passed the known list has an entry for each fragment
      that arrived and for the delivered ADU, and never for anything else. */
  ghost predicate FamilyKnown(list: seq<Entry>, fs: seq<Incoming>, p: Progress, now: nat)
    requires fs != []
  {
    && Sorted(list)
    && (forall x :: x in list && ParentKey(x.id.parent) == KeyOf(fs[0]) ==>
          x.deadline == fs[0].deadline && IdSeen(fs, p, x.id))
    && (now <= fs[0].deadline ==> forall id :: IdSeen(fs, p, id) ==> Entry(id, fs[0].deadline) in list)
  }

  predicate IdSeen(fs: seq<Incoming>, p: Progress, id: BundleId)
    requires fs != []
  {
    (id == ReassembledId(fs[0]) && Delivered(fs, p))
    || exists i :: 0 <= i < |fs| && i in p.arrived && id == IdOf(fs[i])
  }

  predicate FamilySlot(slots: seq<seq<Incoming>>, fs: seq<Incoming>, a: set<nat>)
    requires fs != [] && SlotsFilled(slots)
  {
    && DistinctKeys(slots)
    && (if a == {} || Complete(fs, a) then NoSlot(slots, KeyOf(fs[0]))
        else HasSlot(slots, KeyOf(fs[0]), Pick(fs, a, 0)))
  }

  /** What has been delivered: the original's ADU if a copy came first, and the
      reassembled one if all fragments came. */
  function Outcome(fs: seq<Incoming>, whole: Incoming, adu: seq<byte>, p: Progress): seq<Adu>
    requires fs != []
  {
    (if p.whole then [AduOf(whole, adu)] else [])
    + (if Complete(fs, p.arrived) then [AduOf(fs[0], adu)] else [])
  }

  ghost predicate FamilyInv(s: State, fs: seq<Incoming>, whole: Incoming, adu: seq<byte>, p: Progress, now: nat)
    requires fs != [] && SlotsFilled(s.slots)
  {
    && FamilyKnown(s.known, fs, p, now)
    && FamilySlot(s.slots, fs, p.arrived)
    && DeliveredFor(s.delivered, KeyOf(fs[0])) == Outcome(fs, whole, adu, p)
    && forall i :: i in p.arrived ==> i < |fs|
  }

  // ---- The known list

  /** Searching for an entry of another ADU, at any deadline. */
  lemma SearchOther(list: seq<Entry>, fs: seq<Incoming>, p: Progress, before: nat, e: Entry, now: nat)
    requires fs != [] && FamilyKnown(list, fs, p, before) && before <= now
    requires ParentKey(e.id.parent) != KeyOf(fs[0])
    ensures FamilyKnown(Record(list, e, now).1, fs, p, now)
  {
    hide IdSeen, Search;
    if e.deadline >= now {
      var r := Search(list, e, now).1;
      SearchKeepsOrder(list, e, now);
      forall x | x in r && x != e ensures x in list {
        SearchKeeps(list, e, now, x);
      }
      if now <= fs[0].deadline {
        forall id | IdSeen(fs, p, id) ensures Entry(id, fs[0].deadline) in r {
          SearchKeeps(list, e, now, Entry(id, fs[0].deadline));
        }
      }
    }
  }

  lemma InsertKnown(list: seq<Entry>, fs: seq<Incoming>, p: Progress, now: nat, e: Entry)
    requires fs != [] && FamilyKnown(list, fs, p, now)
    requires ParentKey(e.id.parent) != KeyOf(fs[0]) || (IdSeen(fs, p, e.id) && e.deadline == fs[0].deadline)
    ensures FamilyKnown(Insert(list, e), fs, p, now)
  {
    hide Insert, IdSeen;
    var r := Insert(list, e);
    InsertKeepsOrder(list, e);
    forall x ensures x in r <==> x == e || x in list {
      InsertContents(list, e, x);
    }
  }

  /** The search for an identity of this ADU answers whether it was seen before,
      and lists it. `q` is the progress with the identity added. */
  lemma SearchOwn(list: seq<Entry>, fs: seq<Incoming>, p: Progress, q: Progress, before: nat, id: BundleId, now: nat)
    requires fs != [] && FamilyKnown(list, fs, p, before) && before <= now <= fs[0].deadline
    requires ParentKey(id.parent) == KeyOf(fs[0])
    requires forall x :: IdSeen(fs, q, x) <==> x == id || IdSeen(fs, p, x)
    ensures var r := Record(list, Entry(id, fs[0].deadline), now);
      && (r.0 <==> IdSeen(fs, p, id))
      && FamilyKnown(r.1, fs, q, now)
  {
    hide Search, IdSeen;
    var e := Entry(id, fs[0].deadline);
    var r := Search(list, e, now).1;
    SearchAnswers(list, e, now);
    SearchKeepsOrder(list, e, now);
    SearchLists(list, e, now);
    forall x | x in r && x != e ensures x in list {
      SearchKeeps(list, e, now, x);
    }
    forall x | IdSeen(fs, q, x) ensures Entry(x, fs[0].deadline) in r {
      SearchKeeps(list, e, now, Entry(x, fs[0].deadline));
    }
  }

  lemma DistinctIds(fs: seq<Incoming>, adu: seq<byte>, i: nat, j: nat)
    requires Family(fs, adu) && i < |fs| && j < |fs| && IdOf(fs[i]) == IdOf(fs[j])
    ensures i == j
  {
    if i < j {
      OffsetsIncrease(fs, adu, i, j);
    } else if j < i {
      OffsetsIncrease(fs, adu, j, i);
    }
  }

  /** No fragment has the identity of the original. */
  lemma PartIsNotWhole(fs: seq<Incoming>, adu: seq<byte>, i: nat)
    requires Family(fs, adu) && i < |fs|
    ensures IdOf(fs[i]) != ReassembledId(fs[0])
  {
    if i > 0 {
      OffsetsIncrease(fs, adu, 0, i);
    } else {
      OffsetsIncrease(fs, adu, 0, |fs| - 1);
    }
  }

  lemma SeenFragment(fs: seq<Incoming>, adu: seq<byte>, p: Progress, j: nat)
    requires Family(fs, adu) && j < |fs|
    ensures IdSeen(fs, p, IdOf(fs[j])) <==> j in p.arrived
  {
    PartIsNotWhole(fs, adu, j);
    if IdSeen(fs, p, IdOf(fs[j])) {
      var i :| 0 <= i < |fs| && i in p.arrived && IdOf(fs[j]) == IdOf(fs[i]);
      DistinctIds(fs, adu, i, j);
    }
  }

  lemma SeenWhole(fs: seq<Incoming>, adu: seq<byte>, p: Progress)
    requires Family(fs, adu)
    ensures IdSeen(fs, p, ReassembledId(fs[0])) <==> Delivered(fs, p)
  {
    forall i | 0 <= i < |fs| ensures IdOf(fs[i]) != ReassembledId(fs[0]) {
      PartIsNotWhole(fs, adu, i);
    }
  }

  // ---- One step

  lemma StepOther(s: State, e: Event, fs: seq<Incoming>, whole: Incoming, adu: seq<byte>, p: Progress, before: nat)
    requires SlotsFilled(s.slots) && fs != [] && FamilyInv(s, fs, whole, adu, p, before) && before <= e.now
    requires KeyOf(e.b) != KeyOf(fs[0])
    ensures FamilyInv(Deliver(s, e.b, e.now, e.heap), fs, whole, adu, p, e.now)
  {
    hide Deliver, FamilyKnown, Record, CanReassemble, InsertByOffset, CopyFrom, DeliveredFor, AddFragment,
         DistinctKeys, NoSlot, HasSlot, Outcome;
    DeliverEffect(s, e);
    var r := Deliver(s, e.b, e.now, e.heap);
    var list := Record(s.known, Entry(IdOf(e.b), e.b.deadline), e.now).1;
    SearchOther(s.known, fs, p, before, Entry(IdOf(e.b), e.b.deadline), e.now);
    var done := Completed(s, e);
    CompletedKey(s, e);
    if done != [] {
      InsertKnown(list, fs, p, e.now, Entry(ReassembledId(done[0]), done[0].deadline));
    }
    OtherFragment(s.slots, e.b, KeyOf(fs[0]), Pick(fs, p.arrived, 0), done != []);
    assert s.delivered + [] == s.delivered;
    forall x: Adu { DeliveredForAppend(s.delivered, x, KeyOf(fs[0])); }
  }

  /** What a step completes has the key of the arriving fragment. */
  lemma CompletedKey(s: State, e: Event)
    requires SlotsFilled(s.slots) && DistinctKeys(s.slots)
    ensures Completed(s, e) != [] ==> KeyOf(Completed(s, e)[0]) == KeyOf(e.b)
  {
    hide CanReassemble, InsertByOffset;
    AddFragmentKeys(s.slots, e.b);
  }

  lemma StepRepeated(s: State, e: Event, fs: seq<Incoming>, whole: Incoming, adu: seq<byte>, p: Progress, before: nat,
                     j: nat)
    requires SlotsFilled(s.slots) && Family(fs, adu) && FamilyInv(s, fs, whole, adu, p, before)
    requires j < |fs| && j in p.arrived && e.b == fs[j] && before <= e.now <= fs[0].deadline
    ensures FamilyInv(Deliver(s, e.b, e.now, e.heap), fs, whole, adu, p, e.now)
  {
    hide Deliver, FamilyKnown, Record, IdSeen;
    DeliverEffect(s, e);
    SeenFragment(fs, adu, p, j);
    SearchOwn(s.known, fs, p, p, before, IdOf(fs[j]), e.now);
    assert s.delivered + [] == s.delivered;
  }

  /** A copy of the original: delivered unless the ADU already was. */
  lemma StepWhole(s: State, e: Event, fs: seq<Incoming>, whole: Incoming, adu: seq<byte>, p: Progress, before: nat)
    requires SlotsFilled(s.slots) && Family(fs, adu) && Original(whole, fs, adu)
    requires FamilyInv(s, fs, whole, adu, p, before)
    requires e.b == whole && before <= e.now <= fs[0].deadline
    ensures FamilyInv(Deliver(s, e.b, e.now, e.heap), fs, whole, adu,
                      p.(whole := p.whole || !Complete(fs, p.arrived)), e.now)
  {
    hide Deliver, FamilyKnown, Record, IdSeen, DeliveredFor;
    var q := p.(whole := p.whole || !Complete(fs, p.arrived));
    DeliverEffect(s, e);
    SeenWhole(fs, adu, p);
    forall x ensures IdSeen(fs, q, x) <==> x == ReassembledId(fs[0]) || IdSeen(fs, p, x) {
      SeenAfterWhole(fs, p, q, x);
    }
    SearchOwn(s.known, fs, p, q, before, ReassembledId(fs[0]), e.now);
    assert s.delivered + [] == s.delivered;
    DeliveredForAppend(s.delivered, AduOf(whole, adu), KeyOf(fs[0]));
  }

  lemma SeenAfterWhole(fs: seq<Incoming>, p: Progress, q: Progress, x: BundleId)
    requires fs != [] && q.arrived == p.arrived && Delivered(fs, q)
    ensures IdSeen(fs, q, x) <==> x == ReassembledId(fs[0]) || IdSeen(fs, p, x)
  {
  }

  lemma SeenAfterFragment(fs: seq<Incoming>, p: Progress, j: nat, x: BundleId)
    requires j < |fs|
    ensures var seen := x == IdOf(fs[j]) || IdSeen(fs, p, x);
      && (seen ==> IdSeen(fs, AddArrived(p, j), x))
      && (IdSeen(fs, AddArrived(p, j), x) ==> seen || x == ReassembledId(fs[0]))
  {
    var q := AddArrived(p, j);
    if x == IdOf(fs[j]) {
      assert j in q.arrived;
    } else if exists i :: 0 <= i < |fs| && i in p.arrived && x == IdOf(fs[i]) {
      var i :| 0 <= i < |fs| && i in p.arrived && x == IdOf(fs[i]);
      assert i in q.arrived;
    }
  }

  /** A new fragment completes its slot if and only if it is the last missing one. */
  lemma NewCompletes(s: State, e: Event, fs: seq<Incoming>, whole: Incoming, adu: seq<byte>, p: Progress, before: nat,
                     j: nat)
    requires SlotsFilled(s.slots) && Family(fs, adu) && FamilyInv(s, fs, whole, adu, p, before)
    requires j < |fs| && j !in p.arrived && e.b == fs[j] && before <= e.now <= fs[0].deadline
    ensures !Suppressed(s, e) && IsFragment(e.b)
    ensures Completed(s, e) == if Complete(fs, p.arrived + {j}) then Pick(fs, p.arrived + {j}, 0) else []
  {
    hide FamilyKnown, Record, CanReassemble, InsertByOffset, AddFragment, DistinctKeys, NoSlot, HasSlot, Pick,
         AgreesWith, IdSeen;
    NewFragmentKnown(s.known, fs, adu, p, before, j, e.now);
    PickNothing(fs, p.arrived);
    OwnFragment(s.slots, e.b, Pick(fs, p.arrived, 0));
    InsertPick(fs, adu, p.arrived, 0, j);
    PickComplete(fs, adu, p.arrived + {j}, 0);
  }

  lemma NewSlot(s: State, e: Event, fs: seq<Incoming>, whole: Incoming, adu: seq<byte>, p: Progress, before: nat,
                j: nat)
    requires SlotsFilled(s.slots) && Family(fs, adu) && FamilyInv(s, fs, whole, adu, p, before)
    requires j < |fs| && j !in p.arrived && e.b == fs[j] && before <= e.now <= fs[0].deadline
    ensures FamilySlot(Deliver(s, e.b, e.now, e.heap).slots, fs, p.arrived + {j})
  {
    hide Deliver, FamilyKnown, Record, CanReassemble, InsertByOffset, CopyFrom, AddFragment, DistinctKeys, NoSlot,
         HasSlot,
         Pick, AgreesWith, Completed, Suppressed, Complete, Family, FindSlot, DeliveredFor, Outcome;
    DeliverEffect(s, e);
    NewCompletes(s, e, fs, whole, adu, p, before, j);
    SlotGrows(s, e, fs, adu, p.arrived, j);
    var i, added, r := FindSlot(s.slots, KeyOf(e.b), 0), AddFragment(s.slots, e.b), Deliver(s, e.b, e.now, e.heap);
    assert p.arrived + {j} != {} by { assert j in p.arrived + {j}; }
    if Complete(fs, p.arrived + {j}) {
      CompletePick(fs, p.arrived + {j});
      assert r.slots == added[..i] + added[i + 1..];
    } else {
      assert r.slots == added;
    }
  }

  lemma CompletePick(fs: seq<Incoming>, a: set<nat>)
    requires fs != [] && Complete(fs, a)
    ensures Pick(fs, a, 0) != [] && Pick(fs, a, 0)[0] == fs[0]
  {
    hide Pick;
    PickFirst(fs, a);
  }

  /** The slot of the ADU with a new fragment in its place. */
  lemma SlotGrows(s: State, e: Event, fs: seq<Incoming>, adu: seq<byte>, a: set<nat>, j: nat)
    requires SlotsFilled(s.slots) && Family(fs, adu) && FamilySlot(s.slots, fs, a)
    requires j < |fs| && j !in a && e.b == fs[j] && forall i :: i in a ==> i < |fs|
    ensures KeyOf(e.b) == KeyOf(fs[0])
    ensures var i := FindSlot(s.slots, KeyOf(e.b), 0);
      var added := AddFragment(s.slots, e.b);
      && DistinctKeys(added) && HasSlot(added, KeyOf(e.b), Pick(fs, a + {j}, 0))
      && DistinctKeys(added[..i] + added[i + 1..]) && NoSlot(added[..i] + added[i + 1..], KeyOf(e.b))
  {
    hide InsertByOffset, AddFragment, DistinctKeys, NoSlot, HasSlot, Pick, AgreesWith;
    assert !Complete(fs, a);
    PickNothing(fs, a);
    OwnFragment(s.slots, e.b, Pick(fs, a, 0));
    InsertPick(fs, adu, a, 0, j);
  }

  lemma NewDelivered(s: State, e: Event, fs: seq<Incoming>, whole: Incoming, adu: seq<byte>, p: Progress, before: nat,
                     j: nat)
    requires SlotsFilled(s.slots) && Family(fs, adu) && FamilyInv(s, fs, whole, adu, p, before)
    requires j < |fs| && j !in p.arrived && e.b == fs[j] && before <= e.now <= fs[0].deadline
    ensures DeliveredFor(Deliver(s, e.b, e.now, e.heap).delivered, KeyOf(fs[0]))
            == Outcome(fs, whole, adu, AddArrived(p, j))
  {
    hide Deliver, FamilyKnown, FamilySlot, Record, CopyFrom, DeliveredFor, Pick, AgreesWith, Completed, Suppressed;
    var frags := Pick(fs, p.arrived + {j}, 0);
    DeliverEffect(s, e);
    NewCompletes(s, e, fs, whole, adu, p, before, j);
    if Complete(fs, p.arrived + {j}) {
      PickFirst(fs, p.arrived + {j});
      PickConsistent(fs, adu, p.arrived + {j});
      PickComplete(fs, adu, p.arrived + {j}, 0);
      ReassemblySound(frags, adu, e.heap);
      DeliveredForAppend(s.delivered, AduOf(fs[0], adu), KeyOf(fs[0]));
    } else {
      assert s.delivered + [] == s.delivered;
    }
  }

  lemma StepNew(s: State, e: Event, fs: seq<Incoming>, whole: Incoming, adu: seq<byte>, p: Progress, before: nat,
                j: nat)
    requires SlotsFilled(s.slots) && Family(fs, adu) && FamilyInv(s, fs, whole, adu, p, before)
    requires j < |fs| && j !in p.arrived && e.b == fs[j] && before <= e.now <= fs[0].deadline
    ensures FamilyInv(Deliver(s, e.b, e.now, e.heap), fs, whole, adu, AddArrived(p, j), e.now)
  {
    hide Deliver, FamilyKnown, FamilySlot, Record, CopyFrom, DeliveredFor, Pick, Completed, Suppressed, Outcome;
    DeliverEffect(s, e);
    NewFragmentKnown(s.known, fs, adu, p, before, j, e.now);
    NewCompletes(s, e, fs, whole, adu, p, before, j);
    NewSlot(s, e, fs, whole, adu, p, before, j);
    NewDelivered(s, e, fs, whole, adu, p, before, j);
    if Complete(fs, p.arrived + {j}) {
      PickFirst(fs, p.arrived + {j});
    }
  }

  /** The known list after a fragment arrived for the first time: the search does
      not find it, and if it completes the ADU, the ADU is listed as well. */
  lemma NewFragmentKnown(list: seq<Entry>, fs: seq<Incoming>, adu: seq<byte>, p: Progress, before: nat, j: nat,
                         now: nat)
    requires Family(fs, adu) && FamilyKnown(list, fs, p, before) && before <= now <= fs[0].deadline
    requires j < |fs| && j !in p.arrived
    ensures var r := Record(list, Entry(IdOf(fs[j]), fs[j].deadline), now);
      var q := AddArrived(p, j);
      && !r.0
      && FamilyKnown(if Complete(fs, q.arrived) then Insert(r.1, Entry(ReassembledId(fs[0]), fs[0].deadline)) else r.1,
                     fs, q, now)
  {
    hide Search, Insert, IdSeen;
    var q := AddArrived(p, j);
    SeenFragment(fs, adu, p, j);
    var e := Entry(IdOf(fs[j]), fs[j].deadline);
    var r := Search(list, e, now).1;
    var added := Entry(ReassembledId(fs[0]), fs[0].deadline);
    var all := if Complete(fs, q.arrived) then Insert(r, added) else r;
    SearchAnswers(list, e, now);
    SearchKeepsOrder(list, e, now);
    SearchLists(list, e, now);
    InsertKeepsOrder(r, added);
    SeenWhole(fs, adu, q);
    forall x | x in all ensures x == e || x in list || (x == added && Complete(fs, q.arrived)) {
      SearchKeeps(list, e, now, x);
      InsertContents(r, added, x);
    }
    forall x: BundleId ensures IdSeen(fs, p, x) || x == IdOf(fs[j]) ==> IdSeen(fs, q, x) {
      SeenAfterFragment(fs, p, j, x);
    }
    forall x | IdSeen(fs, q, x) ensures Entry(x, fs[0].deadline) in all {
      SeenAfterFragment(fs, p, j, x);
      SeenWhole(fs, adu, p);
      var entry := Entry(x, fs[0].deadline);
      SearchKeeps(list, e, now, entry);
      InsertContents(r, added, entry);
    }
  }

  lemma {:induction false} PickNothing(fs: seq<Incoming>, a: set<nat>)
    requires forall i :: i in a ==> i < |fs|
    ensures Pick(fs, a, 0) == [] <==> a == {}
  {
    if a != {} {
      var i :| i in a;
      PickMembers(fs, a, 0, fs[i]);
    }
    if Pick(fs, a, 0) != [] {
      PickMembers(fs, a, 0, Pick(fs, a, 0)[0]);
    }
  }

  lemma PickFirst(fs: seq<Incoming>, a: set<nat>)
    requires fs != [] && 0 in a
    ensures Pick(fs, a, 0) != [] && Pick(fs, a, 0)[0] == fs[0]
  {
  }

  // ---- Whole runs

  function Clock(events: seq<Event>): nat {
    if events == [] then 0 else Last(events).now
  }

  function ProgressOf(fs: seq<Incoming>, whole: Incoming, events: seq<Event>): Progress {
    Progress(Arrived(fs, events), WholeFirst(fs, whole, events))
  }

  lemma ArrivesLast(fs: seq<Incoming>, events: seq<Event>)
    requires events != []
    ensures forall i :: 0 <= i < |fs| ==>
      (Arrives(events, fs[i]) <==> Arrives(Init(events), fs[i]) || Last(events).b == fs[i])
  {
    var init := Init(events);
    forall i | 0 <= i < |fs|
      ensures Arrives(events, fs[i]) <==> Arrives(init, fs[i]) || Last(events).b == fs[i]
    {
      if Arrives(init, fs[i]) {
        var k :| 0 <= k < |init| && init[k].b == fs[i];
        assert events[k].b == fs[i];
      }
      if Arrives(events, fs[i]) && Last(events).b != fs[i] {
        var k :| 0 <= k < |events| && events[k].b == fs[i];
        assert init[k].b == fs[i];
      }
    }
  }

  lemma WholeFirstLast(fs: seq<Incoming>, whole: Incoming, events: seq<Event>)
    requires events != []
    ensures WholeFirst(fs, whole, events) <==>
      WholeFirst(fs, whole, Init(events))
      || (Last(events).b == whole && !Complete(fs, Arrived(fs, Init(events))))
  {
    hide Complete, Arrived;
    var init := Init(events);
    forall k | 0 <= k < |init| ensures init[..k] == events[..k] {
    }
    if WholeFirst(fs, whole, init) {
      var k :| 0 <= k < |init| && init[k].b == whole && !Complete(fs, Arrived(fs, init[..k]));
      assert events[k].b == whole && !Complete(fs, Arrived(fs, events[..k]));
    }
    if WholeFirst(fs, whole, events) {
      var k :| 0 <= k < |events| && events[k].b == whole && !Complete(fs, Arrived(fs, events[..k]));
      if k < |init| {
        assert init[k].b == whole && !Complete(fs, Arrived(fs, init[..k]));
      }
    }
  }

  lemma ProgressLast(fs: seq<Incoming>, whole: Incoming, adu: seq<byte>, events: seq<Event>)
    requires Family(fs, adu) && Original(whole, fs, adu) && events != []
    ensures var p, b := ProgressOf(fs, whole, Init(events)), Last(events).b;
      && (forall j :: 0 <= j < |fs| && b == fs[j] ==> ProgressOf(fs, whole, events) == AddArrived(p, j))
      && (b == whole ==>
            ProgressOf(fs, whole, events) == p.(whole := p.whole || !Complete(fs, p.arrived)))
      && (b !in fs && b != whole ==> ProgressOf(fs, whole, events) == p)
  {
    hide Complete;
    var p, b := ProgressOf(fs, whole, Init(events)), Last(events).b;
    ArrivesLast(fs, events);
    WholeFirstLast(fs, whole, events);
    forall j | 0 <= j < |fs| && b == fs[j] ensures ProgressOf(fs, whole, events) == AddArrived(p, j) {
      forall i: nat | i < |fs| && fs[i] == fs[j] ensures i == j {
        DistinctIds(fs, adu, i, j);
      }
      assert Arrived(fs, events) == p.arrived + {j};
    }
    if b !in fs {
      assert Arrived(fs, events) == p.arrived;
    }
  }

  lemma {:induction false} RunFamily(fs: seq<Incoming>, whole: Incoming, adu: seq<byte>, events: seq<Event>)
    requires Family(fs, adu) && Original(whole, fs, adu) && Mixed(fs, whole, events)
    ensures FamilyInv(Run(events), fs, whole, adu, ProgressOf(fs, whole, events), Clock(events))
  {
    hide FamilyInv, Deliver, ProgressOf, Complete;
    if events == [] {
      StartInv(fs, whole, adu, events);
    } else {
      var init, e := Init(events), Last(events);
      var p := ProgressOf(fs, whole, init);
      assert forall k :: 0 <= k < |init| ==> init[k] == events[k];
      RunFamily(fs, whole, adu, init);
      ProgressLast(fs, whole, adu, events);
      if KeyOf(e.b) != KeyOf(fs[0]) {
        forall j | 0 <= j < |fs| ensures e.b != fs[j] {
          assert ParentOf(fs[j]) == ParentOf(fs[0]);
        }
        StepOther(Run(init), e, fs, whole, adu, p, Clock(init));
      } else if e.b == whole {
        StepWhole(Run(init), e, fs, whole, adu, p, Clock(init));
      } else {
        var j :| 0 <= j < |fs| && fs[j] == e.b;
        if j in p.arrived {
          assert AddArrived(p, j) == p by { assert p.arrived + {j} == p.arrived; }
          StepRepeated(Run(init), e, fs, whole, adu, p, Clock(init), j);
        } else {
          StepNew(Run(init), e, fs, whole, adu, p, Clock(init), j);
        }
      }
    }
  }

  lemma StartInv(fs: seq<Incoming>, whole: Incoming, adu: seq<byte>, events: seq<Event>)
    requires Family(fs, adu) && events == []
    ensures FamilyInv(Start, fs, whole, adu, ProgressOf(fs, whole, events), 0)
  {
    var p := ProgressOf(fs, whole, events);
    assert p == Progress({}, false);
    assert 0 !in p.arrived;
    assert !Complete(fs, p.arrived);
  }

  predicate AllArrive(fs: seq<Incoming>, events: seq<Event>) {
    forall i :: 0 <= i < |fs| ==> Arrives(events, fs[i])
  }

  // ---- Which runs use a freed fragment

  /** A fragment arrives for the first time after a copy of the original. */
  predicate LateFragment(fs: seq<Incoming>, whole: Incoming, events: seq<Event>) {
    exists k, l :: 0 <= k < l < |events| && events[k].b == whole
                   && events[l].b in fs && !Arrives(events[..l], events[l].b)
  }

  /** No bundle of another ADU is linked after it was freed. */
  predicate OthersSafe(fs: seq<Incoming>, events: seq<Event>)
    requires fs != []
  {
    forall k :: 0 <= k < |events| && KeyOf(events[k].b) != KeyOf(fs[0]) ==>
      !DiscardedButKept(Run(events[..k]), events[k])
  }

  /** The known list answers whether the original of a new fragment was delivered. */
  lemma NewFragmentOriginal(list: seq<Entry>, fs: seq<Incoming>, adu: seq<byte>, p: Progress, before: nat, j: nat,
                            now: nat)
    requires Family(fs, adu) && FamilyKnown(list, fs, p, before) && before <= now <= fs[0].deadline
    requires j < |fs| && j !in p.arrived
    ensures var r := Record(list, Entry(IdOf(fs[j]), fs[j].deadline), now);
      !r.0 && (FindReassembled(r.1, ParentOf(fs[j]), fs[j].total, fs[j].deadline) <==> p.whole)
  {
    hide Search, IdSeen, FindReassembled;
    var e, x := Entry(IdOf(fs[j]), fs[j].deadline), Entry(ReassembledId(fs[0]), fs[0].deadline);
    NewFragmentKnown(list, fs, adu, p, before, j, now);
    var r := Search(list, e, now).1;
    SearchKeepsOrder(list, e, now);
    PartIsNotWhole(fs, adu, j);
    SeenWhole(fs, adu, p);
    forall y | y in r && y.id == x.id ensures y == x && x in list {
      SearchKeeps(list, e, now, y);
    }
    SearchKeeps(list, e, now, x);
    ReassembledAnswers(r, x, fs[j].total);
  }

  /** Of this ADU, a step links a freed bundle exactly for a new fragment after the
      original. */
  lemma KeptOfFamily(s: State, e: Event, fs: seq<Incoming>, whole: Incoming, adu: seq<byte>, p: Progress, before: nat)
    requires SlotsFilled(s.slots) && Family(fs, adu) && Original(whole, fs, adu)
    requires FamilyInv(s, fs, whole, adu, p, before) && before <= e.now <= fs[0].deadline
    requires e.b in fs || e.b == whole
    ensures DiscardedButKept(s, e) <==> p.whole && exists j :: 0 <= j < |fs| && j !in p.arrived && fs[j] == e.b
  {
    hide FamilyKnown, FamilySlot, DeliveredFor, Record, IdSeen, FindReassembled, AgreesWith;
    if e.b in fs {
      var j :| 0 <= j < |fs| && fs[j] == e.b;
      if j in p.arrived {
        SeenFragment(fs, adu, p, j);
        SearchOwn(s.known, fs, p, p, before, IdOf(fs[j]), e.now);
        forall i | 0 <= i < |fs| && fs[i] == e.b ensures i == j {
          DistinctIds(fs, adu, i, j);
        }
      } else {
        NewFragmentOriginal(s.known, fs, adu, p, before, j, e.now);
      }
    }
  }

  lemma LateLast(fs: seq<Incoming>, whole: Incoming, events: seq<Event>)
    requires events != []
    ensures var init, e := Init(events), Last(events);
      LateFragment(fs, whole, events) <==>
      LateFragment(fs, whole, init) || (e.b in fs && !Arrives(init, e.b) && Arrives(init, whole))
  {
    hide Arrives;
    var init, e := Init(events), Last(events);
    forall l | 0 <= l < |init| ensures init[..l] == events[..l] && init[l] == events[l] {
    }
    assert events[..|init|] == init;
    ArrivesAt(init, whole);
    if LateFragment(fs, whole, init) {
      var k, l :| 0 <= k < l < |init| && init[k].b == whole && init[l].b in fs && !Arrives(init[..l], init[l].b);
      assert events[k].b == whole && events[l].b in fs && !Arrives(events[..l], events[l].b);
    }
    if e.b in fs && !Arrives(init, e.b) && Arrives(init, whole) {
      var k :| 0 <= k < |init| && init[k].b == whole;
      assert events[k].b == whole && events[|init|].b in fs && !Arrives(events[..|init|], events[|init|].b);
    }
    if LateFragment(fs, whole, events) {
      var k, l :| 0 <= k < l < |events| && events[k].b == whole
                  && events[l].b in fs && !Arrives(events[..l], events[l].b);
      assert init[k].b == whole;
      if l < |init| {
        assert init[l].b in fs && !Arrives(init[..l], init[l].b);
      }
    }
  }

  lemma ArrivesAt(events: seq<Event>, b: Incoming)
    ensures Arrives(events, b) <==> exists k :: 0 <= k < |events| && events[k].b == b
  {
  }

  /** As long as a fragment is missing, every copy of the original counts. */
  lemma MissingMeansFirst(fs: seq<Incoming>, whole: Incoming, events: seq<Event>, j: nat)
    requires j < |fs| && !Arrives(events, fs[j])
    ensures WholeFirst(fs, whole, events) <==> Arrives(events, whole)
  {
    if Arrives(events, whole) {
      var k :| 0 <= k < |events| && events[k].b == whole;
      assert !Arrives(events[..k], fs[j]);
      assert j !in Arrived(fs, events[..k]);
    }
  }

  lemma KeptInRun(fs: seq<Incoming>, whole: Incoming, adu: seq<byte>, events: seq<Event>)
    requires Family(fs, adu) && Original(whole, fs, adu) && Mixed(fs, whole, events) && events != []
    requires KeyOf(Last(events).b) == KeyOf(fs[0])
    ensures var init, e := Init(events), Last(events);
      DiscardedButKept(Run(init), e) <==> e.b in fs && !Arrives(init, e.b) && Arrives(init, whole)
  {
    hide FamilyInv, Run, DiscardedButKept, Arrives, WholeFirst, Family;
    var init, e := Init(events), Last(events);
    var p := ProgressOf(fs, whole, init);
    assert forall k :: 0 <= k < |init| ==> init[k] == events[k];
    RunFamily(fs, whole, adu, init);
    KeptOfFamily(Run(init), e, fs, whole, adu, p, Clock(init));
    if e.b in fs {
      var j :| 0 <= j < |fs| && fs[j] == e.b;
      if !Arrives(init, e.b) {
        MissingMeansFirst(fs, whole, init, j);
      }
    }
  }

  lemma {:induction false} SafeInduction(fs: seq<Incoming>, whole: Incoming, adu: seq<byte>, events: seq<Event>)
    requires Family(fs, adu) && Original(whole, fs, adu) && Mixed(fs, whole, events) && OthersSafe(fs, events)
    ensures Safe(events) <==> !LateFragment(fs, whole, events)
  {
    hide Run, DiscardedButKept, Family, Original, Safe, LateFragment, Arrives;
    if events == [] {
      NothingLate(fs, whole);
    } else {
      var init, e := Init(events), Last(events);
      assert forall k :: 0 <= k < |init| ==> init[k] == events[k] && init[..k] == events[..k];
      assert events[..|init|] == init;
      SafeInduction(fs, whole, adu, init);
      SafeStep(events);
      LateLast(fs, whole, events);
      if KeyOf(e.b) == KeyOf(fs[0]) {
        KeptInRun(fs, whole, adu, events);
      } else {
        OtherKey(fs, adu, e.b);
      }
    }
  }

  lemma NothingLate(fs: seq<Incoming>, whole: Incoming)
    ensures Safe([]) && !LateFragment(fs, whole, [])
  {
  }

  lemma OtherKey(fs: seq<Incoming>, adu: seq<byte>, b: Incoming)
    requires Family(fs, adu) && KeyOf(b) != KeyOf(fs[0])
    ensures b !in fs
  {
    forall j | 0 <= j < |fs| ensures b != fs[j] {
      assert ParentOf(fs[j]) == ParentOf(fs[0]);
    }
  }

  /** With any other traffic that is itself safe: a freed bundle is used if and only
      if a fragment arrives for the first time after a copy of the original. */
  lemma FamilySafeExactly(fs: seq<Incoming>, whole: Incoming, adu: seq<byte>, events: seq<Event>)
    requires Family(fs, adu) && Original(whole, fs, adu) && Mixed(fs, whole, events) && OthersSafe(fs, events)
    ensures MemorySafety.RunMemory(events).misused <==> LateFragment(fs, whole, events)
    ensures Safe(events) <==> !LateFragment(fs, whole, events)
  {
    hide Family, Original, Mixed, OthersSafe, Safe, LateFragment, MemorySafety.RunMemory;
    SafeInduction(fs, whole, adu, events);
    MemorySafety.MisusedExactly(events);
  }

  // ---- What is delivered

  lemma {:induction false} FirstArrival(events: seq<Event>, b: Incoming) returns (l: nat)
    requires Arrives(events, b)
    ensures l < |events| && events[l].b == b && !Arrives(events[..l], b)
  {
    l :| 0 <= l < |events| && events[l].b == b;
    if Arrives(events[..l], b) {
      var before := events[..l];
      l := FirstArrival(before, b);
      assert before[..l] == events[..l];
    }
  }

  /** A copy of the original while a fragment is missing, and then all fragments. */
  lemma BothMeansLate(fs: seq<Incoming>, whole: Incoming, adu: seq<byte>, events: seq<Event>)
    requires Family(fs, adu) && Original(whole, fs, adu)
    requires WholeFirst(fs, whole, events) && AllArrive(fs, events)
    ensures LateFragment(fs, whole, events)
  {
    hide AgreesWith;
    var k :| 0 <= k < |events| && events[k].b == whole && !Complete(fs, Arrived(fs, events[..k]));
    var j :| 0 <= j < |fs| && j !in Arrived(fs, events[..k]);
    var l := FirstArrival(events, fs[j]);
    ArrivesEarlier(events, l, k);
  }

  lemma ArrivesEarlier(events: seq<Event>, l: nat, k: nat)
    requires l < |events| && k <= |events|
    ensures l < k ==> Arrives(events[..k], events[l].b)
  {
    if l < k {
      assert events[..k][l] == events[l];
    }
  }

  lemma SafeOthers(fs: seq<Incoming>, events: seq<Event>)
    requires fs != [] && Safe(events)
    ensures OthersSafe(fs, events)
  {
    hide DiscardedButKept, Run, Safe;
    SafeEverywhere(events);
  }

  lemma OutcomeOfRun(fs: seq<Incoming>, whole: Incoming, adu: seq<byte>, events: seq<Event>)
    requires Family(fs, adu) && Original(whole, fs, adu) && Mixed(fs, whole, events)
    ensures DeliveredFor(Run(events).delivered, KeyOf(fs[0]))
         == (if WholeFirst(fs, whole, events) then [AduOf(whole, adu)] else [])
            + (if AllArrive(fs, events) then [AduOf(fs[0], adu)] else [])
  {
    hide Family, Mixed, FamilyKnown, FamilySlot, Run, WholeFirst;
    RunFamily(fs, whole, adu, events);
    forall i | 0 <= i < |fs| ensures i in Arrived(fs, events) <==> Arrives(events, fs[i]) {
    }
  }

  /** Every run in which no freed bundle is linked: the ADU is delivered once, from
      a copy of the original if one arrives while a fragment is still missing, and
      else from the fragments once all have arrived. Nothing else of this ADU ever
      is, and nothing twice. */
  lemma DeliveriesOfAdu(fs: seq<Incoming>, whole: Incoming, adu: seq<byte>, events: seq<Event>)
    requires Family(fs, adu) && Original(whole, fs, adu) && Mixed(fs, whole, events) && Safe(events)
    ensures DeliveredFor(Run(events).delivered, KeyOf(fs[0]))
         == if WholeFirst(fs, whole, events) then [AduOf(whole, adu)]
            else if AllArrive(fs, events) then [AduOf(fs[0], adu)] else []
  {
    hide Family, Run, WholeFirst, AllArrive, Original, Safe, LateFragment, OthersSafe;
    OutcomeOfRun(fs, whole, adu, events);
    SafeOthers(fs, events);
    FamilySafeExactly(fs, whole, adu, events);
    if WholeFirst(fs, whole, events) && AllArrive(fs, events) {
      BothMeansLate(fs, whole, adu, events);
    }
  }

  /** Without copies of the original the fragments of an ADU are never the reason
      that a freed bundle is used, and the ADU is delivered exactly once, with its
      original content, as soon as all its fragments have arrived, and not before:
      the statement holds for every prefix of a run. Repeated fragments change
      nothing. */
  lemma DeliveredExactlyOnce(fs: seq<Incoming>, whole: Incoming, adu: seq<byte>, events: seq<Event>)
    requires Family(fs, adu) && Original(whole, fs, adu) && Mixed(fs, whole, events) && OthersSafe(fs, events)
    requires forall k :: 0 <= k < |events| ==> events[k].b != whole
    ensures Safe(events)
    ensures DeliveredFor(Run(events).delivered, KeyOf(fs[0]))
         == if AllArrive(fs, events) then [AduOf(fs[0], adu)] else []
  {
    hide Family, Mixed, Run, AllArrive, OthersSafe, Safe;
    FamilySafeExactly(fs, whole, adu, events);
    DeliveriesOfAdu(fs, whole, adu, events);
  }

  /** A bundle of two octets and its fragments of one octet each. */
  const WHOLE := Incoming(7, "dtn://a/", "dtn://b/", 0, 0, 10, 0, 0, 0, [1, 2])
  const HALVES := [WHOLE.(procFlags := 1, total := 2, payload := [1]),
                   WHOLE.(procFlags := 1, offset := 1, total := 2, payload := [2])]

  /** The bundle and then its first fragment: the fragment is freed, it is in the
      reassembly list all the same, and it was used there. */
  lemma FreedButKept(heap: nat -> byte)
    ensures var events := [Event(WHOLE, 0, heap), Event(HALVES[0], 0, heap)];
      && HALVES[0] in Run(events).discarded && HALVES[0] in Concat(Run(events).slots)
      && MemorySafety.RunMemory(events).misused
  {
    hide Run, Deliver, DiscardedButKept, WholeFirst, FamilyInv, Completed, Concat, MemorySafety.RunMemory, Safe,
         ProgressOf, Complete;
    var e, f := Event(WHOLE, 0, heap), Event(HALVES[0], 0, heap);
    var events := [e, f];
    assert Init(events) == [e] && Last(events) == f && events[1] == f;
    HalvesAreFamily();
    KeptInRun(HALVES, WHOLE, [1, 2], events);
    assert [e][0].b == WHOLE && Arrives([e], WHOLE);
    SafeStep(events);
    MemorySafety.MisusedExactly(events);
    assert Run(events) == Deliver(Run([e]), f.b, 0, heap) by { RunLast(events); }
    DiscardEffect(Run([e]), f);
    HalfIsNotAll(e, f);
    FragmentSlotsCount(Run([e]), f);
    assert f.b in multiset(Concat(Run(events).slots)) + multiset([]);
  }

  lemma RunLast(events: seq<Event>)
    requires events != []
    ensures Run(events) == Deliver(Run(Init(events)), Last(events).b, Last(events).now, Last(events).heap)
  {
    hide Deliver;
  }

  lemma HalfIsNotAll(e: Event, f: Event)
    requires e.b == WHOLE && f.b == HALVES[0] && e.now == f.now == 0
    ensures Completed(Run([e]), f) == []
  {
    hide Run, FamilyInv, Completed, Family, Original;
    HalvesAreFamily();
    var p := ProgressOf(HALVES, WHOLE, [e]);
    assert 1 !in p.arrived + {0} && 0 !in p.arrived;
    RunFamily(HALVES, WHOLE, [1, 2], [e]);
    NewCompletes(Run([e]), f, HALVES, WHOLE, [1, 2], p, 0, 0);
  }

  lemma HalvesAreFamily()
    ensures Family(HALVES, [1, 2]) && Original(WHOLE, HALVES, [1, 2])
  {
  }

  // ---- From the router's plan to the delivered ADU

  /** A bundle as the receiver sees it. */
  function Received(d: Bundle7.BundleData, deadline: nat): Incoming {
    Incoming(d.header.version, d.header.source, d.header.destination, d.header.creationMs,
             d.header.sequence, deadline, d.procFlags, d.fragmentOffset, d.totalAduLength,
             if d.payload < |d.blocks| then Bundle7.Payload(d) else [])
  }

  function ReceivedAll(ds: seq<Bundle7.BundleData>, deadline: nat): (r: seq<Incoming>)
    ensures |r| == |ds| && forall i :: 0 <= i < |ds| ==> r[i] == Received(ds[i], deadline)
  {
    seq(|ds|, i requires 0 <= i < |ds| => Received(ds[i], deadline))
  }

  /** One piece of `payload`, which starts at `offset` of the ADU. */
  predicate PieceOf(d: Bundle7.BundleData, h: Bundle7.Header, flags: nat, adu: nat, offset: nat, payload: seq<byte>) {
    && d.payload < |d.blocks|
    && d.header == h && d.procFlags == flags && d.totalAduLength == adu && Bundle7.IsFragment(flags)
    && 0 < |Bundle7.Payload(d)|
    && offset <= d.fragmentOffset
    && d.fragmentOffset + |Bundle7.Payload(d)| <= offset + |payload|
    && Bundle7.Payload(d) == payload[d.fragmentOffset - offset..][..|Bundle7.Payload(d)|]
  }

  lemma PieceOfRest(d: Bundle7.BundleData, h: Bundle7.Header, flags: nat, adu: nat, offset: nat, payload: seq<byte>,
                    n: nat)
    requires n <= |payload| && PieceOf(d, h, flags, adu, offset + n, payload[n..])
    ensures PieceOf(d, h, flags, adu, offset, payload)
  {
    var at := d.fragmentOffset - offset;
    assert payload[n..][at - n..] == payload[at..];
  }

  predicate Adjacent(d: Bundle7.BundleData, next: Bundle7.BundleData) {
    d.payload < |d.blocks| && d.fragmentOffset + |Bundle7.Payload(d)| == next.fragmentOffset
  }

  /** The pieces of a partition, by position. */
  lemma {:induction false} PartitionPieces(ds: seq<Bundle7.BundleData>, h: Bundle7.Header, flags: nat, adu: nat,
                                           offset: nat, payload: seq<byte>)
    requires RoutePlanning.Partition(ds, h, flags, adu, offset, payload)
    ensures forall i :: 0 <= i < |ds| ==> PieceOf(ds[i], h, flags, adu, offset, payload)
    ensures forall i :: 0 <= i < |ds| - 1 ==> Adjacent(ds[i], ds[i + 1])
    ensures ds != [] ==> ds[0].fragmentOffset == offset
    ensures ds != [] ==> var last := ds[|ds| - 1];
      last.payload < |last.blocks| &&
      last.fragmentOffset + |Bundle7.Payload(last)| == offset + |payload|
  {
    hide Bundle7.WellFormed;
    if ds != [] {
      var d, rest := ds[0], ds[1..];
      Bundle7.PayloadPresent(d);
      var n := |Bundle7.Payload(d)|;
      PartitionPieces(rest, h, flags, adu, offset + n, payload[n..]);
      assert payload[0..] == payload;
      assert PieceOf(d, h, flags, adu, offset, payload);
      forall i | 1 <= i < |ds| ensures PieceOf(ds[i], h, flags, adu, offset, payload) {
        assert ds[i] == rest[i - 1];
        PieceOfRest(ds[i], h, flags, adu, offset, payload, n);
      }
      forall i | 0 <= i < |ds| - 1 ensures Adjacent(ds[i], ds[i + 1]) {
        assert ds[i + 1] == rest[i];
        if i > 0 {
          assert ds[i] == rest[i - 1];
        }
      }
    }
  }

  lemma PartitionIsFamily(ds: seq<Bundle7.BundleData>, h: Bundle7.Header, flags: nat, payload: seq<byte>, deadline: nat)
    requires RoutePlanning.Partition(ds, h, flags, |payload|, 0, payload) && |ds| >= 2 && |payload| < TWO_32
    ensures Family(ReceivedAll(ds, deadline), payload)
    ensures ds[0].header == h && ds[0].procFlags == flags
  {
    hide RoutePlanning.Partition, PieceOf, Adjacent, Received, AgreesWith;
    PartitionPieces(ds, h, flags, |payload|, 0, payload);
    var fs := ReceivedAll(ds, deadline);
    forall i | 0 <= i < |fs|
      ensures fs[i] == Received(ds[i], deadline) && MemberOf(ds[i], fs[i], h, flags, payload, deadline)
    {
      assert PieceOf(ds[i], h, flags, |payload|, 0, payload);
      PieceReceived(ds[i], h, flags, payload, deadline);
    }
    forall i | 0 <= i < |fs| - 1 ensures fs[i].offset + |fs[i].payload| == fs[i + 1].offset {
      assert Adjacent(ds[i], ds[i + 1]);
      AdjacentReceived(ds[i], ds[i + 1], deadline);
    }
  }

  predicate MemberOf(d: Bundle7.BundleData, f: Incoming, h: Bundle7.Header, flags: nat, payload: seq<byte>,
                     deadline: nat) {
    && d.payload < |d.blocks| && d.header == h && d.procFlags == flags
    && f.offset == d.fragmentOffset && f.payload == Bundle7.Payload(d) && f.deadline == deadline
    && IsFragment(f) && |f.payload| > 0
    && f.offset + |f.payload| <= |payload| == f.total
    && AgreesWith(f, payload)
    && ParentOf(f) == ParentId(h.version, h.source, h.creationMs, h.sequence)
  }

  lemma PieceReceived(d: Bundle7.BundleData, h: Bundle7.Header, flags: nat, payload: seq<byte>, deadline: nat)
    requires PieceOf(d, h, flags, |payload|, 0, payload)
    ensures MemberOf(d, Received(d, deadline), h, flags, payload, deadline)
  {
    var f := Received(d, deadline);
    assert f.payload == payload[f.offset..][..|f.payload|];
  }

  lemma AdjacentReceived(d: Bundle7.BundleData, next: Bundle7.BundleData, deadline: nat)
    requires Adjacent(d, next)
    ensures Received(d, deadline).offset + |Received(d, deadline).payload| == Received(next, deadline).offset
  {
  }

  /** End to end: a bundle the router plans to send in two or more fragments is
      split so that whatever order its fragments arrive in, however often, with
      copies of the bundle itself that no new fragment follows and other traffic
      that is safe, no freed bundle is used and the ADU is delivered exactly once,
      with a copy or once all fragments are there, as if the bundle had not been
      fragmented. */
  lemma FragmentedBundleDeliveredOnce(d: Bundle7.BundleData, maxFragment: nat, minPayload: nat, shares: seq<nat>,
                                      ds: seq<Bundle7.BundleData>, deadline: nat, events: seq<Event>)
    requires Bundle7.WellFormed(d) && !Bundle7.IsFragment(d.procFlags)
    requires Bundle7.FirstMinSize(d) < maxFragment <= INT32_MAX
    requires RoutePlanning.Plan(RoutePlanning.BundleLimits(d, maxFragment, minPayload), |Bundle7.Payload(d)|)
             == Some(shares)
    requires |shares| >= 2
    requires RoutePlanning.SplitFrom(d, Fragmentation.FirstFragment(d), shares, 0) == Some(ds)
    requires Mixed(ReceivedAll(ds, deadline), Received(d, deadline), events)
    requires OthersSafe(ReceivedAll(ds, deadline), events)
    requires !LateFragment(ReceivedAll(ds, deadline), Received(d, deadline), events)
    ensures Safe(events)
    ensures var fs, whole := ReceivedAll(ds, deadline), Received(d, deadline);
      DeliveredFor(Run(events).delivered, KeyOf(whole))
      == if WholeFirst(fs, whole, events) || AllArrive(fs, events) then [AduOf(whole, Bundle7.Payload(d))] else []
  {
    hide RoutePlanning.Plan, RoutePlanning.SplitFrom, Run, DeliveredFor, Mixed, Family, Bundle7.FirstMinSize,
         Bundle7.WellFormed, Fragmentation.FirstFragment, AllArrive, ReceivedAll, Received, Original, Safe,
         LateFragment, OthersSafe, WholeFirst;
    WholeBundleFields(d);
    RoutedFamily(d, maxFragment, minPayload, shares, ds, deadline);
    FamilySafeExactly(ReceivedAll(ds, deadline), Received(d, deadline), Bundle7.Payload(d), events);
    DeliveriesOfAdu(ReceivedAll(ds, deadline), Received(d, deadline), Bundle7.Payload(d), events);
  }

  /** The fragments of a plan, as they are received. */
  lemma RoutedFamily(d: Bundle7.BundleData, maxFragment: nat, minPayload: nat, shares: seq<nat>,
                     ds: seq<Bundle7.BundleData>, deadline: nat)
    requires Bundle7.WellFormed(d) && !Bundle7.IsFragment(d.procFlags)
    requires Bundle7.FirstMinSize(d) < maxFragment <= INT32_MAX
    requires RoutePlanning.Plan(RoutePlanning.BundleLimits(d, maxFragment, minPayload), |Bundle7.Payload(d)|)
             == Some(shares)
    requires |shares| >= 2
    requires RoutePlanning.SplitFrom(d, Fragmentation.FirstFragment(d), shares, 0) == Some(ds)
    ensures var fs, whole, adu := ReceivedAll(ds, deadline), Received(d, deadline), Bundle7.Payload(d);
      && Family(fs, adu) && fs != [] && Original(whole, fs, adu)
      && KeyOf(whole) == KeyOf(fs[0]) && AduOf(whole, adu) == AduOf(fs[0], adu)
  {
    hide RoutePlanning.Plan, RoutePlanning.Partition, RoutePlanning.SplitFrom, RoutePlanning.WithinBudget, Family,
         Bundle7.FirstMinSize, Bundle7.WellFormed, Fragmentation.FirstFragment;
    RoutePlanning.FragmentsWithinBudget(d, maxFragment, minPayload, shares);
    WholeBundleFields(d);
    PartitionIsFamily(ds, d.header, Bundle7.SetFragmentFlag(d.procFlags), Bundle7.Payload(d), deadline);
  }

  lemma WholeBundleFields(d: Bundle7.BundleData)
    requires Bundle7.WellFormed(d) && !Bundle7.IsFragment(d.procFlags)
    ensures d.payload < |d.blocks| && d.fragmentOffset == 0 && |Bundle7.Payload(d)| < TWO_32
    ensures Fragmentation.AduLength(d) == |Bundle7.Payload(d)|
    ensures Bundle7.OnePayload(d)
  {
  }
}
