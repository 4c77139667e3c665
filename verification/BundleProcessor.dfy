/** Local delivery: duplicate suppression, the reassembly list and the ADUs
    handed to agents (components/ud3tn/bundle_processor.c). */
module BundleProcessor {
  import opened Octets
  import opened KnownBundles
  import opened Reassembly
  import opened BundleMemory

  /** `delivered` is the log of ADUs handed over, `discarded` that of the bundles
      freed by `bundle_discard`. */
  datatype State = State(known: seq<Entry>, slots: seq<seq<Incoming>>,
                         delivered: seq<Adu>, discarded: seq<Incoming>)

  predicate SlotsFilled(slots: seq<seq<Incoming>>) {
    forall i :: 0 <= i < |slots| ==> slots[i] != []
  }

  // ---- Specification

  /** First slot whose fragments belong to the bundle, or the number of slots. */
  function FindSlot(slots: seq<seq<Incoming>>, key: Key, from: nat): (r: nat)
    requires SlotsFilled(slots) && from <= |slots|
    ensures from <= r <= |slots|
    ensures r < |slots| ==> KeyOf(slots[r][0]) == key
    ensures forall i :: from <= i < r ==> KeyOf(slots[i][0]) != key
    decreases |slots| - from
  {
    if from < |slots| && KeyOf(slots[from][0]) != key then FindSlot(slots, key, from + 1) else from
  }

  /** The slots with a fragment put into its slot, or into a new one at the end. */
  function AddFragment(slots: seq<seq<Incoming>>, b: Incoming): (r: seq<seq<Incoming>>)
    requires SlotsFilled(slots)
    ensures SlotsFilled(r) && FindSlot(slots, KeyOf(b), 0) < |r|
  {
    var i := FindSlot(slots, KeyOf(b), 0);
    if i < |slots| then slots[i := InsertByOffset(slots[i], b)] else slots + [[b]]
  }

  /** `try_reassemble` */
  function TryReassemble(s: State, i: nat, heap: nat -> byte): (r: State)
    requires SlotsFilled(s.slots) && i < |s.slots|
    ensures SlotsFilled(r.slots)
  {
    var frags := s.slots[i];
    if !CanReassemble(frags, 0) then s
    else
      State(Insert(s.known, Entry(ReassembledId(frags[0]), frags[0].deadline)),
            s.slots[..i] + s.slots[i + 1..],
            s.delivered + [AduOf(frags[0], CopyFrom(frags, Fresh(frags[0].total, heap), 0))],
            s.discarded + frags)
  }

  predicate OriginalKnown(s: State, b: Incoming) {
    FindReassembled(s.known, ParentOf(b), b.total, b.deadline)
  }

  /** `bundle_attempt_reassembly`: a fragment whose original was delivered is
      freed, and then goes into the reassembly list all the same. From there on
      the state is what the lists say of a bundle that is no longer there. */
  function AttemptReassembly(s: State, b: Incoming, heap: nat -> byte): (r: State)
    requires SlotsFilled(s.slots)
    ensures SlotsFilled(r.slots)
  {
    var s1 := if OriginalKnown(s, b) then s.(discarded := s.discarded + [b]) else s;
    TryReassemble(s1.(slots := AddFragment(s.slots, b)), FindSlot(s.slots, KeyOf(b), 0), heap)
  }

  /** `bundle_deliver_local`, for a destination with a registered agent. */
  function Deliver(s: State, b: Incoming, now: nat, heap: nat -> byte): (r: State)
    requires SlotsFilled(s.slots)
    ensures SlotsFilled(r.slots)
  {
    var (found, list) := Record(s.known, Entry(IdOf(b), b.deadline), now);
    if found then s.(known := list, discarded := s.discarded + [b])
    else if IsFragment(b) then AttemptReassembly(s.(known := list), b, heap)
    else s.(known := list, discarded := s.discarded + [b], delivered := s.delivered + [AduOf(b, b.payload)])
  }

  // ---- What is read and freed

  /** Where a fragment goes in its slot. */
  function Position(slot: seq<Incoming>, b: Incoming): (k: nat)
    ensures k <= |slot|
  {
    if slot == [] || slot[0].offset > b.offset then 0 else 1 + Position(slot[1..], b)
  }

  /** How many of `n` entries a search that stops at `k` looks at. */
  function LookedAt(k: nat, n: nat): nat {
    if k < n then k + 1 else k
  }

  /** A reference for each fragment in the slots. */
  predicate Parallel(m: Memory, slots: seq<seq<Incoming>>) {
    |m.lists| == |slots| && forall i :: 0 <= i < |slots| ==> |m.lists[i]| == |slots[i]|
  }

  function Heads(lists: seq<seq<nat>>): (r: seq<nat>)
    requires forall i :: 0 <= i < |lists| ==> lists[i] != []
    ensures |r| == |lists| && forall i :: 0 <= i < |lists| ==> r[i] == lists[i][0]
  {
    seq(|lists|, i requires 0 <= i < |lists| => lists[i][0])
  }

  /** `add_to_reassembly_bundle_list`, for a slot. */
  function AddMemory(m: Memory, slot: seq<Incoming>, i: nat, b: Incoming, r: nat): (n: Memory)
    requires i < |m.lists| && |m.lists[i]| == |slot|
    ensures n.freed == m.freed
  {
    var list, k := m.lists[i], Position(slot, b);
    UsedWith(m, list[..LookedAt(k, |list|)], r).(lists := m.lists[i := list[..k] + [r] + list[k..]])
  }

  /** The search for the slot, and the fragment put into it. */
  function LinkMemory(m: Memory, slots: seq<seq<Incoming>>, b: Incoming, r: nat): (n: Memory)
    requires SlotsFilled(slots) && Parallel(m, slots)
    ensures Parallel(n, AddFragment(slots, b)) && n.freed == m.freed
  {
    var i := FindSlot(slots, KeyOf(b), 0);
    var m1 := UsedWith(m, Heads(m.lists)[..LookedAt(i, |slots|)], r);
    if i < |slots| then AddMemory(m1, slots[i], i, b, r) else m1.(lists := m.lists + [[r]])
  }

  /** `try_reassemble` */
  function TryMemory(m: Memory, slots: seq<seq<Incoming>>, i: nat): (n: Memory)
    requires Parallel(m, slots) && i < |slots|
    ensures n.lists == if CanReassemble(slots[i], 0) then m.lists[..i] + m.lists[i + 1..] else m.lists
  {
    var m1 := UsedAll(m, m.lists[i][..Checked(slots[i], 0)]);
    if CanReassemble(slots[i], 0) then FreedAll(m1, m.lists[i]).(lists := m.lists[..i] + m.lists[i + 1..]) else m1
  }

  /** `bundle_attempt_reassembly`, for a bundle with reference `r`. */
  function AttemptMemory(s: State, m: Memory, b: Incoming, r: nat): (n: Memory)
    requires SlotsFilled(s.slots) && Parallel(m, s.slots)
  {
    var m1 := if OriginalKnown(s, b) then Freed(m, r) else Used(m, r);
    TryMemory(LinkMemory(m1, s.slots, b, r), AddFragment(s.slots, b), FindSlot(s.slots, KeyOf(b), 0))
  }

  /** `bundle_deliver_local` */
  function DeliverMemory(s: State, m: Memory, b: Incoming, now: nat, r: nat): (n: Memory)
    requires SlotsFilled(s.slots) && Parallel(m, s.slots)
  {
    var (found, list) := Record(s.known, Entry(IdOf(b), b.deadline), now);
    if found || !IsFragment(b) then Freed(Used(m, r), r)
    else AttemptMemory(s.(known := list), Used(m, r), b, r)
  }

  lemma AttemptParallel(s: State, m: Memory, b: Incoming, r: nat, heap: nat -> byte)
    requires SlotsFilled(s.slots) && Parallel(m, s.slots)
    ensures Parallel(AttemptMemory(s, m, b, r), AttemptReassembly(s, b, heap).slots)
  {
    hide CanReassemble, CopyFrom, FindReassembled, LinkMemory, AddFragment;
  }

  lemma DeliverParallel(s: State, m: Memory, b: Incoming, now: nat, r: nat, heap: nat -> byte)
    requires SlotsFilled(s.slots) && Parallel(m, s.slots)
    ensures Parallel(DeliverMemory(s, m, b, now, r), Deliver(s, b, now, heap).slots)
  {
    hide AttemptMemory, AttemptReassembly, Record;
    AttemptParallel(s.(known := Record(s.known, Entry(IdOf(b), b.deadline), now).1), Used(m, r), b, r, heap);
  }

  // ---- The component

  /** The place `add_to_reassembly_bundle_list` finds. */
  method AddToReassemblyBundleList(slot: seq<Incoming>, b: Incoming) returns (r: seq<Incoming>, k: nat)
    ensures r == InsertByOffset(slot, b) && k == Position(slot, b)
  {
    k := 0;
    while k < |slot| && slot[k].offset <= b.offset
      invariant 0 <= k <= |slot|
      invariant forall i :: 0 <= i < k ==> slot[i].offset <= b.offset
    {
      k := k + 1;
    }
    InsertByOffsetAt(slot, b, k);
    r := slot[..k] + [b] + slot[k..];
  }

  lemma {:induction false} InsertByOffsetAt(slot: seq<Incoming>, b: Incoming, k: nat)
    requires k <= |slot|
    requires forall i :: 0 <= i < k ==> slot[i].offset <= b.offset
    requires k < |slot| ==> slot[k].offset > b.offset
    ensures InsertByOffset(slot, b) == slot[..k] + [b] + slot[k..] && k == Position(slot, b)
  {
    if k > 0 {
      InsertByOffsetAt(slot[1..], b, k - 1);
      assert slot == [slot[0]] + slot[1..];
    }
  }

  lemma {:induction false} InsertAt(list: seq<Entry>, e: Entry, k: nat)
    requires k <= |list|
    requires forall i :: 0 <= i < k ==> list[i].deadline <= e.deadline
    requires k < |list| ==> list[k].deadline > e.deadline
    ensures Insert(list, e) == list[..k] + [e] + list[k..]
  {
    if k > 0 {
      InsertAt(list[1..], e, k - 1);
      assert list == [list[0]] + list[1..];
    }
  }

  class Processor {
    var knownBundles: seq<Entry>
    var reassemblyList: seq<seq<Incoming>>
    var delivered: seq<Adu>
    var discarded: seq<Incoming>
    /** The bundles' memory; it belongs to the lists of the state. */
    ghost var memory: Memory

    ghost function Abs(): State
      reads this
    {
      State(knownBundles, reassemblyList, delivered, discarded)
    }

    ghost predicate Valid()
      reads this
    {
      SlotsFilled(reassemblyList) && Parallel(memory, reassemblyList)
    }

    constructor ()
      ensures Valid() && Abs() == State([], [], [], []) && memory == Memory([], {}, false)
    {
      knownBundles, reassemblyList, delivered, discarded := [], [], [], [];
      memory := Memory([], {}, false);
    }

    method RecordAddAndCheckKnown(b: Incoming, now: nat) returns (known: bool)
      modifies this`knownBundles
      ensures (known, knownBundles) == Record(old(knownBundles), Entry(IdOf(b), b.deadline), now)
    {
      var e := Entry(IdOf(b), b.deadline);
      if e.deadline < now {
        return true;
      }
      var i := 0;
      NoPrefix(Search(knownBundles, e, now));
      assert knownBundles[0..] == knownBundles;
      while i < |knownBundles|
        invariant 0 <= i <= |knownBundles|
        invariant Search(old(knownBundles), e, now) ==
                  WithPrefix(knownBundles[..i], Search(knownBundles[i..], e, now))
        decreases |knownBundles| - i
      {
        var cur := knownBundles[i];
        assert knownBundles[i..] == [cur] + knownBundles[i + 1..];
        if cur.id == e.id {
          assert knownBundles == knownBundles[..i] + knownBundles[i..];
          return true;
        } else if cur.deadline < now {
          ghost var before := knownBundles;
          knownBundles := knownBundles[..i] + knownBundles[i + 1..];
          assert knownBundles[..i] == before[..i] && knownBundles[i..] == before[i + 1..];
          continue;
        } else if cur.deadline > e.deadline {
          break;
        }
        TwoPrefixes(knownBundles[..i], [cur], Search(knownBundles[i + 1..], e, now));
        assert knownBundles[..i + 1] == knownBundles[..i] + [cur];
        i := i + 1;
      }
      assert i == |knownBundles| ==> [e] + knownBundles[i..] == [e];
      assert Search(knownBundles[i..], e, now) == (false, [e] + knownBundles[i..]);
      assert knownBundles[..i] + ([e] + knownBundles[i..]) == knownBundles[..i] + [e] + knownBundles[i..];
      knownBundles := knownBundles[..i] + [e] + knownBundles[i..];
      return false;
    }

    method ReassembledIsKnown(b: Incoming) returns (known: bool)
      ensures known == OriginalKnown(Abs(), b)
    {
      for i := 0 to |knownBundles|
        invariant OriginalKnown(Abs(), b) ==
                  FindReassembled(knownBundles[i..], ParentOf(b), b.total, b.deadline)
      {
        assert knownBundles[i..] == [knownBundles[i]] + knownBundles[i + 1..];
        if knownBundles[i].id == ReassembledId(b) {
          return true;
        } else if knownBundles[i].deadline > b.deadline {
          return false;
        }
      }
      return false;
    }

    method AddReassembledAsKnown(b: Incoming)
      modifies this`knownBundles
      ensures knownBundles == Insert(old(knownBundles), Entry(ReassembledId(b), b.deadline))
    {
      var e := Entry(ReassembledId(b), b.deadline);
      var i := 0;
      while i < |knownBundles| && knownBundles[i].deadline <= e.deadline
        invariant 0 <= i <= |knownBundles|
        invariant forall k :: 0 <= k < i ==> knownBundles[k].deadline <= e.deadline
      {
        i := i + 1;
      }
      InsertAt(knownBundles, e, i);
      knownBundles := knownBundles[..i] + [e] + knownBundles[i..];
    }

    method TryReassembleSlot(i: nat, heap: nat -> byte)
      requires Valid() && i < |reassemblyList|
      modifies this
      ensures Valid() && Abs() == TryReassemble(old(Abs()), i, heap)
      ensures memory == TryMemory(old(memory), old(reassemblyList), i)
    {
      var frags := reassemblyList[i];
      ghost var list := memory.lists[i];
      var complete, seen := CheckFragments(frags);
      memory := UsedAll(memory, list[..seen]);
      if !complete {
        return;
      }
      var payload := CopyFragments(frags, frags[0].total, heap);
      AddReassembledAsKnown(frags[0]);
      discarded := discarded + frags;
      memory := FreedAll(memory, list);
      reassemblyList := reassemblyList[..i] + reassemblyList[i + 1..];
      memory := memory.(lists := memory.lists[..i] + memory.lists[i + 1..]);
      delivered := delivered + [AduOf(frags[0], payload[..])];
    }

    /** The slot of a bundle with reference `r`, or the end of the list. */
    method SlotFor(b: Incoming, ghost r: nat) returns (i: nat)
      requires Valid()
      modifies this`memory
      ensures Valid() && i == FindSlot(reassemblyList, KeyOf(b), 0) <= |reassemblyList|
      ensures var m := old(memory);
        memory == UsedWith(m, Heads(m.lists)[..LookedAt(i, |reassemblyList|)], r)
    {
      hide UsedWith, KeyOf;
      i := 0;
      ghost var m := memory;
      assert UsedWith(m, [], r) == m by { UsedWithNone(m, r); }
      ghost var heads := Heads(m.lists);
      while i < |reassemblyList|
        invariant Valid() && 0 <= i <= |reassemblyList|
        invariant FindSlot(reassemblyList, KeyOf(b), 0) == FindSlot(reassemblyList, KeyOf(b), i)
        invariant memory == UsedWith(m, heads[..i], r)
      {
        memory := Used(Used(memory, memory.lists[i][0]), r);
        UsedWithNext(m, heads, i, r);
        if KeyOf(reassemblyList[i][0]) == KeyOf(b) {
          return;
        }
        i := i + 1;
      }
    }

    /** The fragment goes into its slot, or into a new one. */
    method Link(b: Incoming, ghost r: nat) returns (i: nat)
      requires Valid()
      modifies this`memory, this`reassemblyList
      ensures Valid() && i == FindSlot(old(reassemblyList), KeyOf(b), 0)
      ensures reassemblyList == AddFragment(old(reassemblyList), b)
      ensures memory == LinkMemory(old(memory), old(reassemblyList), b, r)
    {
      hide InsertByOffset, Position, UsedWith;
      i := SlotFor(b, r);
      if i < |reassemblyList| {
        var slot, k := AddToReassemblyBundleList(reassemblyList[i], b);
        memory := AddMemory(memory, reassemblyList[i], i, b, r);
        reassemblyList := reassemblyList[i := slot];
      } else {
        var slot, k := AddToReassemblyBundleList([], b);
        assert slot == [b] by { InsertByOffsetAt([], b, 0); }
        reassemblyList := reassemblyList + [slot];
        memory := memory.(lists := memory.lists + [[r]]);
      }
    }

    /** For a bundle with reference `r`. */
    method AttemptReassemblyOf(b: Incoming, ghost r: nat, heap: nat -> byte)
      requires Valid()
      modifies this
      ensures Valid() && Abs() == AttemptReassembly(old(Abs()), b, heap)
      ensures memory == AttemptMemory(old(Abs()), old(memory), b, r)
    {
      hide FindReassembled, TryMemory, TryReassemble, LinkMemory, AddFragment, FindSlot;
      var original := ReassembledIsKnown(b);
      memory := Used(memory, r);
      if original {
        discarded := discarded + [b];
        memory := Freed(memory, r);
      }
      var i := Link(b, r);
      TryReassembleSlot(i, heap);
    }

    method DeliverLocal(b: Incoming, now: nat, ghost r: nat, heap: nat -> byte)
      requires Valid()
      modifies this
      ensures Valid() && Abs() == Deliver(old(Abs()), b, now, heap)
      ensures memory == DeliverMemory(old(Abs()), old(memory), b, now, r)
    {
      hide AttemptReassembly, AttemptMemory;
      var known := RecordAddAndCheckKnown(b, now);
      memory := Used(memory, r);
      if known {
        discarded := discarded + [b];
        memory := Freed(memory, r);
        return;
      }
      if IsFragment(b) {
        AttemptReassemblyOf(b, r, heap);
      } else {
        discarded := discarded + [b];
        memory := Freed(memory, r);
        delivered := delivered + [AduOf(b, b.payload)];
      }
    }
  }

  ghost function WithPrefix(p: seq<Entry>, r: (bool, seq<Entry>)): (bool, seq<Entry>) {
    (r.0, p + r.1)
  }

  lemma NoPrefix(r: (bool, seq<Entry>))
    ensures WithPrefix([], r) == r
  {
    assert [] + r.1 == r.1;
  }

  lemma TwoPrefixes(p: seq<Entry>, q: seq<Entry>, r: (bool, seq<Entry>))
    ensures WithPrefix(p, WithPrefix(q, r)) == WithPrefix(p + q, r)
  {
    assert p + (q + r.1) == p + q + r.1;
  }
}
