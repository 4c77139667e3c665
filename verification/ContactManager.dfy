/** The step of components/ud3tn/contact_manager.c: which contacts are active, and
    when something happens next. */
module ContactManager {
  import opened Octets
  import opened Contacts
  import ContactOrder

  const MAX_CONCURRENT_CONTACTS := 10
  /** UINT64_MAX: nothing is coming up. */
  const NEVER := TWO_64 - 1

  type ContactMap = map<Ref, Contact>

  predicate Known(heap: ContactMap, list: seq<Ref>) {
    forall c :: c in list ==> c in heap
  }

  predicate Ended(heap: ContactMap, c: Ref, now: nat)
    requires c in heap
  {
    heap[c].toMs <= now
  }

  predicate Open(heap: ContactMap, c: Ref, now: nat)
    requires c in heap
  {
    heap[c].fromMs <= now < heap[c].toMs
  }

  // ---- Ending contacts

  function Kept(heap: ContactMap, active: seq<Ref>, now: nat): (r: seq<Ref>)
    requires Known(heap, active)
    ensures |r| <= |active| && forall c :: c in r <==> c in active && !Ended(heap, c, now)
  {
    if active == [] then []
    else (if Ended(heap, active[0], now) then [] else [active[0]]) + Kept(heap, active[1..], now)
  }

  /** The ended ones, the last one first. */
  function Expired(heap: ContactMap, active: seq<Ref>, now: nat): (r: seq<Ref>)
    requires Known(heap, active)
    ensures forall c :: c in r <==> c in active && Ended(heap, c, now)
  {
    if active == [] then []
    else Expired(heap, active[1..], now) + (if Ended(heap, active[0], now) then [active[0]] else [])
  }

  // ---- Contacts that are coming up

  datatype Outcome = Outcome(active: seq<Ref>, next: nat, added: seq<Ref>)

  /** `check_upcoming` */
  function Checked(o: Outcome, c: Ref): Outcome {
    if c in o.active || |o.active| >= MAX_CONCURRENT_CONTACTS then o
    else o.(active := o.active + [c], added := o.added + [c])
  }

  function Earlier(o: Outcome, t: nat): Outcome {
    o.(next := if t < o.next then t else o.next)
  }

  /** `process_upcoming_list` from an entry on; it stops at the first contact that
      has not begun. */
  function Upcoming(heap: ContactMap, list: seq<Ref>, now: nat, o: Outcome): Outcome
    requires Known(heap, list)
    decreases list
  {
    if list == [] then o
    else
      var c := list[0];
      if heap[c].fromMs > now then Earlier(o, heap[c].fromMs)
      else if heap[c].toMs > now then Upcoming(heap, list[1..], now, Earlier(Checked(o, c), heap[c].toMs))
      else Upcoming(heap, list[1..], now, o)
  }

  /** `check_for_contacts` */
  function Step(heap: ContactMap, list: seq<Ref>, now: nat, active: seq<Ref>): Outcome
    requires Known(heap, list) && Known(heap, active)
  {
    Upcoming(heap, list, now, Outcome(Kept(heap, active, now), NEVER, []))
  }

  // ---- What a step achieves

  /** Distinct contacts that have not ended, no more than there is room for. */
  predicate ActiveSound(heap: ContactMap, active: seq<Ref>, now: nat) {
    && Known(heap, active) && ContactOrder.Distinct(active) && |active| <= MAX_CONCURRENT_CONTACTS
    && forall c :: c in active ==> !Ended(heap, c, now)
  }

  /** `t` is the start or the end of a listed contact, after now. */
  ghost predicate Event(heap: ContactMap, list: seq<Ref>, now: nat, t: nat)
    requires Known(heap, list)
  {
    t > now && exists c :: c in list && (t == heap[c].fromMs || t == heap[c].toMs)
  }

  /** The earliest event, or `NEVER` if there is none. */
  ghost predicate IsEarliest(heap: ContactMap, list: seq<Ref>, now: nat, t: nat)
    requires Known(heap, list)
  {
    (t == NEVER || Event(heap, list, now, t)) && forall u :: Event(heap, list, now, u) ==> t <= u
  }

  /** Windows in 64 bits that are not empty. */
  predicate WindowsValid(heap: ContactMap, list: seq<Ref>)
    requires Known(heap, list)
  {
    forall c :: c in list ==> heap[c].fromMs < heap[c].toMs <= NEVER
  }

  lemma {:induction false} KeptDistinct(heap: ContactMap, active: seq<Ref>, now: nat)
    requires Known(heap, active) && ContactOrder.Distinct(active)
    ensures ContactOrder.Distinct(Kept(heap, active, now))
  {
    if active != [] {
      assert forall i :: 0 <= i < |active[1..]| ==> active[1..][i] == active[i + 1];
      KeptDistinct(heap, active[1..], now);
      var k := Kept(heap, active[1..], now);
      assert active[0] !in active[1..];
      assert active[0] !in k;
      assert ContactOrder.Distinct([active[0]] + k);
      assert [] + k == k;
    }
  }

  lemma CheckedSound(heap: ContactMap, o: Outcome, c: Ref, now: nat)
    requires c in heap && ActiveSound(heap, o.active, now) && !Ended(heap, c, now)
    ensures ActiveSound(heap, Checked(o, c).active, now)
    ensures c in Checked(o, c).active || |Checked(o, c).active| == MAX_CONCURRENT_CONTACTS
  {
    var r := o.active + [c];
    if c !in o.active {
      assert forall i :: 0 <= i < |o.active| ==> r[i] == o.active[i] && o.active[i] in o.active;
      assert r[|o.active|] == c;
    }
  }

  /** The active contacts after the list was processed. */
  lemma {:induction false} UpcomingActive(heap: ContactMap, list: seq<Ref>, now: nat, o: Outcome)
    requires ContactOrder.Ordered(heap, list, true) && ActiveSound(heap, o.active, now)
    ensures var r := Upcoming(heap, list, now, o);
      && ActiveSound(heap, r.active, now)
      && o.active <= r.active
      && (|r.active| == MAX_CONCURRENT_CONTACTS || forall c :: c in list && Open(heap, c, now) ==> c in r.active)
    decreases list
  {
    hide ActiveSound;
    SoundSize(heap, o.active, now);
    if list != [] {
      OrderedTail(heap, list);
      var c := list[0];
      if heap[c].fromMs <= now {
        if heap[c].toMs > now {
          CheckedSound(heap, o, c, now);
          var q := Earlier(Checked(o, c), heap[c].toMs);
          UpcomingActive(heap, list[1..], now, q);
          SoundSize(heap, Upcoming(heap, list[1..], now, q).active, now);
        } else {
          UpcomingActive(heap, list[1..], now, o);
        }
        assert list == [c] + list[1..];
      }
    }
  }

  lemma SoundSize(heap: ContactMap, active: seq<Ref>, now: nat)
    requires ActiveSound(heap, active, now)
    ensures |active| <= MAX_CONCURRENT_CONTACTS
  {
  }

  lemma OrderedTail(heap: ContactMap, list: seq<Ref>)
    requires ContactOrder.Ordered(heap, list, true) && list != []
    ensures ContactOrder.Ordered(heap, list[1..], true)
    ensures forall c :: c in list ==> heap[list[0]].fromMs <= heap[c].fromMs
  {
    assert forall i :: 0 <= i < |list[1..]| ==> list[1..][i] == list[i + 1];
    forall c | c in list ensures heap[list[0]].fromMs <= heap[c].fromMs {
      var i :| 0 <= i < |list| && list[i] == c;
      assert i > 0 ==> ContactOrder.Key(heap[list[0]], true) <= ContactOrder.Key(heap[list[i]], true);
    }
  }

  lemma EventFront(heap: ContactMap, list: seq<Ref>, now: nat, t: nat)
    requires Known(heap, list) && list != []
    ensures Event(heap, list, now, t) <==>
      (t > now && (t == heap[list[0]].fromMs || t == heap[list[0]].toMs)) || Event(heap, list[1..], now, t)
  {
    assert list == [list[0]] + list[1..];
  }

  /** The next event is the earlier of what was found before and the earliest of
      the list, although the search stops early. */
  lemma {:induction false} UpcomingNext(heap: ContactMap, list: seq<Ref>, now: nat, o: Outcome)
    requires ContactOrder.Ordered(heap, list, true) && WindowsValid(heap, list)
    ensures var t := Upcoming(heap, list, now, o).next;
      && t <= o.next
      && (t == o.next || Event(heap, list, now, t))
      && forall u :: Event(heap, list, now, u) ==> t <= u
    decreases list
  {
    hide Event;
    if list == [] {
      forall u ensures !Event(heap, list, now, u) {
        NoEvents(heap, now, u);
      }
    } else {
      OrderedTail(heap, list);
      var c := list[0];
      assert list == [c] + list[1..];
      if heap[c].fromMs > now {
        StartIsEarliest(heap, list, now);
      } else {
        var q := if heap[c].toMs > now then Earlier(Checked(o, c), heap[c].toMs) else o;
        UpcomingNext(heap, list[1..], now, q);
        var t := Upcoming(heap, list, now, o).next;
        EventFront(heap, list, now, t);
        forall u | Event(heap, list, now, u) ensures t <= u {
          EventFront(heap, list, now, u);
        }
      }
    }
  }

  lemma NoEvents(heap: ContactMap, now: nat, u: nat)
    ensures !Event(heap, [], now, u)
  {
  }

  /** Where the search stops, nothing later begins or ends before. */
  lemma StartIsEarliest(heap: ContactMap, list: seq<Ref>, now: nat)
    requires Known(heap, list) && WindowsValid(heap, list) && list != [] && heap[list[0]].fromMs > now
    requires forall c :: c in list ==> heap[list[0]].fromMs <= heap[c].fromMs
    ensures Event(heap, list, now, heap[list[0]].fromMs)
    ensures forall u :: Event(heap, list, now, u) ==> heap[list[0]].fromMs <= u
  {
    assert list[0] in list;
  }

  /** After every step the active contacts are distinct and none has ended; every
      open contact of the list is active unless all places are taken; and the next
      time to act is the earliest start or end of any listed contact. */
  lemma StepAchieves(heap: ContactMap, list: seq<Ref>, now: nat, active: seq<Ref>)
    requires ContactOrder.Ordered(heap, list, true) && WindowsValid(heap, list)
    requires Known(heap, active) && ContactOrder.Distinct(active) && |active| <= MAX_CONCURRENT_CONTACTS
    ensures var r := Step(heap, list, now, active);
      && ActiveSound(heap, r.active, now)
      && (|r.active| == MAX_CONCURRENT_CONTACTS || forall c :: c in list && Open(heap, c, now) ==> c in r.active)
      && (forall c :: c in active && !Ended(heap, c, now) ==> c in r.active)
      && IsEarliest(heap, list, now, r.next)
  {
    hide Event, ContactOrder.Distinct, ContactOrder.SortedBy;
    KeptDistinct(heap, active, now);
    var o := Outcome(Kept(heap, active, now), NEVER, []);
    UpcomingActive(heap, list, now, o);
    UpcomingNext(heap, list, now, o);
  }

  /** The next time to act is in the future. */
  lemma NextIsLater(heap: ContactMap, list: seq<Ref>, now: nat, active: seq<Ref>)
    requires ContactOrder.Ordered(heap, list, true) && WindowsValid(heap, list) && Known(heap, active) && now < NEVER
    ensures Step(heap, list, now, active).next > now
  {
    hide ContactOrder.Distinct, ContactOrder.SortedBy, Kept;
    UpcomingNext(heap, list, now, Outcome(Kept(heap, active, now), NEVER, []));
  }

  // ---- The loops

  /** Contacts whose active flag is set or cleared. */
  function Flagged(heap: ContactMap, list: seq<Ref>, flag: bool): (r: ContactMap)
    ensures r.Keys == heap.Keys
    ensures forall c :: c in heap ==> r[c] == if c in list then heap[c].(active := flag) else heap[c]
  {
    map c | c in heap :: if c in list then heap[c].(active := flag) else heap[c]
  }

  lemma FlaggedMore(heap: ContactMap, list: seq<Ref>, flag: bool, c: Ref)
    requires c in heap
    ensures Flagged(heap, list + [c], flag) == Flagged(heap, list, flag)[c := heap[c].(active := flag)]
  {
  }

  /** All places are taken, the last contact has not ended and another one has: the
      shift reads one place more than there are. */
  predicate ReadsPast(heap: ContactMap, active: seq<Ref>, now: nat)
    requires Known(heap, active)
  {
    && |active| == MAX_CONCURRENT_CONTACTS
    && !Ended(heap, active[|active| - 1], now)
    && exists i :: 0 <= i < |active| && Ended(heap, active[i], now)
  }

  /** Open contacts for which there is room become active in their order. */
  lemma {:induction false} UpcomingTakesAll(heap: ContactMap, list: seq<Ref>, now: nat, o: Outcome)
    requires Known(heap, list) && ContactOrder.Distinct(o.active + list)
    requires |o.active| + |list| <= MAX_CONCURRENT_CONTACTS && forall c :: c in list ==> Open(heap, c, now)
    ensures Upcoming(heap, list, now, o).active == o.active + list
    decreases list
  {
    if list != [] {
      var c, all := list[0], o.active + list;
      assert all[|o.active|] == c && forall i :: 0 <= i < |o.active| ==> all[i] == o.active[i];
      assert c !in o.active;
      assert o.active + [c] + list[1..] == all;
      UpcomingTakesAll(heap, list[1..], now, Earlier(Checked(o, c), heap[c].toMs));
    }
  }

  const TEN := [0, 1, 2, 3, 4, 5, 6, 7, 8, 9]
  /** Ten contacts of which the first ends at 1 ms and the others at 2 ms. */
  const TEN_CONTACTS: ContactMap :=
    map r: Ref | 0 <= r < 10 :: Contact(None, 0, if r == 0 then 1 else 2, 0, 0, 0, 0, 0, [], [], false)

  /** They all become active at 0 ms; at 1 ms the shift reads past the places. */
  lemma TenContactsReadPast()
    ensures Known(TEN_CONTACTS, TEN)
    ensures Step(TEN_CONTACTS, TEN, 0, []).active == TEN && ReadsPast(TEN_CONTACTS, TEN, 1)
  {
    UpcomingTakesAll(TEN_CONTACTS, TEN, 0, Outcome([], NEVER, []));
    assert [] + TEN == TEN;
    assert Kept(TEN_CONTACTS, [], 0) == [];
    assert TEN[0] == 0 && TEN[9] == 9;
  }

  predicate NoneEnded(heap: ContactMap, active: seq<Ref>, from: nat, now: nat)
    requires Known(heap, active)
  {
    forall k :: from <= k < |active| ==> !Ended(heap, active[k], now)
  }

  /** The same for the places that were looked at, from the last to `from`. */
  predicate PastSoFar(heap: ContactMap, active: seq<Ref>, from: nat, now: nat, past: bool)
    requires Known(heap, active)
  {
    past <==> |active| == MAX_CONCURRENT_CONTACTS && !NoneEnded(heap, active, from, now)
              && !Ended(heap, active[|active| - 1], now)
  }

  lemma PastNothing(heap: ContactMap, active: seq<Ref>, now: nat)
    requires Known(heap, active)
    ensures PastSoFar(heap, active, |active|, now, false)
  {
  }

  lemma PastAll(heap: ContactMap, active: seq<Ref>, now: nat, past: bool)
    requires Known(heap, active) && PastSoFar(heap, active, 0, now, past)
    ensures past <==> ReadsPast(heap, active, now)
  {
  }

  lemma {:induction false} KeptAllExactly(heap: ContactMap, active: seq<Ref>, from: nat, now: nat)
    requires Known(heap, active) && from <= |active|
    ensures var n := |Kept(heap, active[from..], now)|;
      n <= |active| - from && (n == |active| - from <==> NoneEnded(heap, active, from, now))
    decreases |active| - from
  {
    hide Ended, Kept;
    LoopStart(heap, active, now);
    if from < |active| {
      LoopStep(heap, active, from, now);
      KeptAllExactly(heap, active, from + 1, now);
    }
  }

  /** One place more; `count` places are taken before it is given up. */
  lemma PastStep(heap: ContactMap, active: seq<Ref>, i: nat, now: nat, past: bool, count: nat)
    requires Known(heap, active) && i < |active| <= MAX_CONCURRENT_CONTACTS
    requires PastSoFar(heap, active, i + 1, now, past)
    requires count == i + 1 + |Kept(heap, active[i + 1..], now)|
    ensures PastSoFar(heap, active, i, now, past || (Ended(heap, active[i], now) && i != count - 1
                                                     && count == MAX_CONCURRENT_CONTACTS))
  {
    hide Kept;
    KeptAllExactly(heap, active, i + 1, now);
    if !Ended(heap, active[i], now) {
      assert NoneEnded(heap, active, i, now) <==> NoneEnded(heap, active, i + 1, now);
    }
  }

  class Manager {
    /** One place more than the source has, which the shift may read. */
    const current: array<Ref>
    var count: nat
    var next: nat
    const heap: Heap

    ghost predicate Valid()
      reads this, current, heap
    {
      && current.Length == MAX_CONCURRENT_CONTACTS + 1 && count <= MAX_CONCURRENT_CONTACTS
      && Known(heap.contacts, current[..count])
    }

    constructor (memory: Heap)
      ensures Valid() && heap == memory && count == 0 && fresh(current)
    {
      current := new Ref[MAX_CONCURRENT_CONTACTS + 1](i => 0);
      count, next, heap := 0, NEVER, memory;
    }

    /** The inner loop: everything behind place `i` moves up. */
    method ShiftLeft(i: nat) returns (ghost past: bool)
      requires Valid() && i < count
      modifies current
      ensures current[..count - 1] == old(current[..i]) + old(current[i + 1..count])
      ensures past <==> count == MAX_CONCURRENT_CONTACTS
    {
      var c := i;
      past := false;
      while c < count
        invariant i <= c <= count && (past <==> c == MAX_CONCURRENT_CONTACTS)
        invariant forall k :: 0 <= k < i ==> current[k] == old(current[k])
        invariant forall k :: i <= k < c ==> current[k] == old(current[k + 1])
        invariant forall k :: c <= k < current.Length ==> current[k] == old(current[k])
      {
        past := past || c + 1 >= MAX_CONCURRENT_CONTACTS;
        current[c] := current[c + 1];
        c := c + 1;
      }
    }

    /** The place of an ended contact is given up. */
    method GiveUp(i: nat) returns (ghost past: bool)
      requires Valid() && i < count
      modifies this`count, current
      ensures Valid() && current[..count] == old(current[..count])[..i] + old(current[..count])[i + 1..]
      ensures past <==> i != old(count) - 1 && old(count) == MAX_CONCURRENT_CONTACTS
    {
      ghost var before, behind := current[..i], current[i + 1..count];
      ghost var all := current[..count];
      assert all == before + [all[i]] + behind;
      past := false;
      if i != count - 1 {
        past := ShiftLeft(i);
      }
      count := count - 1;
      assert current[..count] == before + behind;
    }

    /** `remove_expired_contacts`, and whether it reads past the array. */
    method RemoveExpiredContacts(now: nat) returns (removed: seq<Ref>, ghost past: bool)
      requires Valid()
      modifies this`count, current, heap`contacts
      ensures Valid()
      ensures current[..count] == Kept(old(heap.contacts), old(current[..count]), now)
      ensures removed == Expired(old(heap.contacts), old(current[..count]), now)
      ensures heap.contacts == Flagged(old(heap.contacts), removed, false)
      ensures past <==> ReadsPast(old(heap.contacts), old(current[..count]), now)
    {
      hide Kept, Expired, Flagged, PastSoFar, ReadsPast;
      ghost var was, places := heap.contacts, current[..count];
      removed, past := [], false;
      var i := count;
      LoopStart(was, places, now);
      PastNothing(was, places, now);
      assert places[..i] + [] == places;
      while i > 0
        invariant 0 <= i <= |places| && Valid()
        invariant current[..count] == places[..i] + Kept(was, places[i..], now)
        invariant removed == Expired(was, places[i..], now)
        invariant heap.contacts == Flagged(was, removed, false)
        invariant PastSoFar(was, places, i, now, past)
      {
        i := i - 1;
        LoopStep(was, places, i, now);
        ghost var behind := Kept(was, places[i + 1..], now);
        Places(current[..count], places, i, behind);
        var c := current[i];
        assert c == current[..count][i];
        PastStep(was, places, i, now, past, count);
        if heap.contacts[c].toMs <= now {
          FlaggedMore(was, removed, false, c);
          FlagKeeps(was, removed, false, c);
          heap.contacts := heap.contacts[c := heap.contacts[c].(active := false)];
          removed := removed + [c];
          ghost var here := GiveUp(i);
          past := past || here;
        }
      }
      PastAll(was, places, now, past);
      assert places[0..] == places && places[..0] + Kept(was, places, now) == Kept(was, places, now);
    }

    /** `check_upcoming`: whether the contact became active. */
    method CheckUpcoming(c: Ref) returns (added: bool)
      requires Valid() && c in heap.contacts
      modifies this`count, current, heap`contacts
      ensures Valid() && added == (c !in old(current[..count]) && old(count) < MAX_CONCURRENT_CONTACTS)
      ensures current[..count] == if added then old(current[..count]) + [c] else old(current[..count])
      ensures heap.contacts == if added then old(heap.contacts)[c := old(heap.contacts[c]).(active := true)]
                               else old(heap.contacts)
    {
      var i := 0;
      while i < count
        invariant 0 <= i <= count && c !in current[..i]
      {
        if current[i] == c {
          return false;
        }
        assert current[..i + 1] == current[..i] + [current[i]];
        i := i + 1;
      }
      if count >= MAX_CONCURRENT_CONTACTS {
        return false;
      }
      heap.contacts := heap.contacts[c := heap.contacts[c].(active := true)];
      current[count] := c;
      count := count + 1;
      assert current[..count] == old(current[..count]) + [c];
      added := true;
    }

    /** `process_upcoming_list` */
    method ProcessUpcomingList(list: seq<Ref>, now: nat) returns (added: seq<Ref>)
      requires Valid() && Known(heap.contacts, list)
      modifies this`count, this`next, current, heap`contacts
      ensures Valid()
      ensures Outcome(current[..count], next, added)
              == Upcoming(old(heap.contacts), list, now, Outcome(old(current[..count]), NEVER, []))
      ensures heap.contacts == Flagged(old(heap.contacts), added, true)
    {
      hide Flagged;
      ghost var was := heap.contacts;
      ghost var goal := Upcoming(was, list, now, Outcome(current[..count], NEVER, []));
      next, added := NEVER, [];
      var rest := list;
      NothingFlagged(was);
      while rest != []
        invariant Valid() && Known(was, rest) && Known(was, added)
        invariant heap.contacts == Flagged(was, added, true)
        invariant goal == Upcoming(was, rest, now, Outcome(current[..count], next, added))
        decreases rest
      {
        var c := rest[0];
        FlagKeeps(was, added, true, c);
        if heap.contacts[c].fromMs > now {
          if heap.contacts[c].fromMs < next {
            next := heap.contacts[c].fromMs;
          }
          break;
        }
        if heap.contacts[c].toMs > now {
          FlaggedMore(was, added, true, c);
          var grown := CheckUpcoming(c);
          if grown {
            added := added + [c];
          }
          if heap.contacts[c].toMs < next {
            next := heap.contacts[c].toMs;
          }
        }
        rest := rest[1..];
      }
    }

    /** `check_for_contacts` without the hand-over to other tasks. */
    method CheckForContacts(list: seq<Ref>, now: nat) returns (removed: seq<Ref>, added: seq<Ref>)
      requires Valid() && Known(heap.contacts, list)
      modifies this`count, this`next, current, heap`contacts
      ensures Valid()
      ensures Outcome(current[..count], next, added) == Step(old(heap.contacts), list, now, old(current[..count]))
      ensures removed == Expired(old(heap.contacts), old(current[..count]), now)
      ensures heap.contacts == Flagged(Flagged(old(heap.contacts), removed, false), added, true)
    {
      hide Kept, Expired, Flagged;
      ghost var was := heap.contacts;
      ghost var past;
      removed, past := RemoveExpiredContacts(now);
      UpcomingFrame(was, heap.contacts, list, now, Outcome(current[..count], NEVER, []));
      added := ProcessUpcomingList(list, now);
    }
  }

  lemma Places(all: seq<Ref>, places: seq<Ref>, i: nat, behind: seq<Ref>)
    requires i < |places| && all == places[..i + 1] + behind
    ensures all[i] == places[i] && all[..i] == places[..i] && all[i + 1..] == behind
    ensures all == places[..i] + ([places[i]] + behind)
  {
  }

  lemma LoopStart(heap: ContactMap, places: seq<Ref>, now: nat)
    requires Known(heap, places)
    ensures places[|places|..] == [] && Kept(heap, [], now) == [] && Expired(heap, [], now) == []
    ensures Flagged(heap, [], false) == heap
  {
  }

  lemma LoopStep(heap: ContactMap, places: seq<Ref>, i: nat, now: nat)
    requires Known(heap, places) && i < |places|
    ensures var c, behind := places[i], places[i + 1..];
      && Kept(heap, places[i..], now) == (if Ended(heap, c, now) then [] else [c]) + Kept(heap, behind, now)
      && Expired(heap, places[i..], now) == Expired(heap, behind, now) + (if Ended(heap, c, now) then [c] else [])
      && [] + Kept(heap, behind, now) == Kept(heap, behind, now)
      && Expired(heap, behind, now) + [] == Expired(heap, behind, now)
      && (forall x :: x in Expired(heap, behind, now) ==> x in heap)
      && Flagged(heap, Expired(heap, behind, now), false)[c].toMs == heap[c].toMs
  {
    assert places[i..][0] == places[i] && places[i..][1..] == places[i + 1..];
  }

  lemma NothingFlagged(heap: ContactMap)
    ensures Flagged(heap, [], true) == heap
  {
  }

  lemma FlagKeeps(heap: ContactMap, list: seq<Ref>, flag: bool, c: Ref)
    requires c in heap
    ensures var f := Flagged(heap, list, flag)[c];
      f.fromMs == heap[c].fromMs && f.toMs == heap[c].toMs && f.(active := flag) == heap[c].(active := flag)
  {
  }

  /** Flags do not matter. */
  lemma {:induction false} UpcomingFrame(heap: ContactMap, other: ContactMap, list: seq<Ref>, now: nat, o: Outcome)
    requires Known(heap, list) && Known(other, list)
    requires forall c :: c in list ==> other[c].fromMs == heap[c].fromMs && other[c].toMs == heap[c].toMs
    ensures Upcoming(other, list, now, o) == Upcoming(heap, list, now, o)
    decreases list
  {
    if list != [] {
      var c := list[0];
      UpcomingFrame(heap, other, list[1..], now, Earlier(Checked(o, c), heap[c].toMs));
      UpcomingFrame(heap, other, list[1..], now, o);
    }
  }
}
