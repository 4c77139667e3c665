/** Over whole runs of the bundle processor: a freed bundle is used exactly in the
    runs in which a freed bundle is linked into the reassembly list, and in all
    others each bundle has one owner until it is freed, once. */
module MemorySafety {
  import opened Octets
  import opened KnownBundles
  import opened Reassembly
  import opened BundleMemory
  import opened BundleProcessor
  import opened Delivery

  /** The memory after a run; a bundle's reference is its place in the run. */
  function RunMemory(events: seq<Event>): (m: Memory)
    ensures Parallel(m, Run(events).slots)
  {
    if events == [] then Memory([], {}, false)
    else
      var s, e, m := Run(Init(events)), Last(events), RunMemory(Init(events));
      DeliverParallel(s, m, e.b, e.now, |events| - 1, e.heap);
      DeliverMemory(s, m, e.b, e.now, |events| - 1)
  }

  // ---- Ownership

  function Refs(lists: seq<seq<nat>>): multiset<nat> {
    multiset(Concat<nat>(lists))
  }

  /** Of `n` bundles, each is in the reassembly list once or freed, never both. */
  ghost predicate Owned(m: Memory, n: nat) {
    && (forall r :: r in m.freed ==> r < n)
    && (forall r: nat :: Refs(m.lists)[r] == if r < n && r !in m.freed then 1 else 0)
  }

  lemma CountSum(a: multiset<nat>, b: multiset<nat>, c: multiset<nat>, r: nat)
    requires a == b + c
    ensures a[r] == b[r] + c[r]
  {
  }

  lemma ListOwned(m: Memory, n: nat, i: nat, r: nat)
    requires Owned(m, n) && i < |m.lists| && r in m.lists[i]
    ensures r < n && r !in m.freed && multiset(m.lists[i])[r] == 1
  {
    hide Concat;
    ConcatAround<nat>(m.lists, i);
    CountSum(Refs(m.lists), multiset(m.lists[i]), Refs(m.lists[..i] + m.lists[i + 1..]), r);
  }

  /** A new bundle put into a list. */
  lemma ListGrows(lists: seq<seq<nat>>, i: nat, k: nat, r: nat)
    requires i < |lists| && k <= |lists[i]|
    ensures Refs(lists[i := lists[i][..k] + [r] + lists[i][k..]]) == Refs(lists) + multiset{r}
  {
    hide Concat;
    var list := lists[i];
    var added := lists[i := list[..k] + [r] + list[k..]];
    assert list == list[..k] + list[k..];
    assert multiset(list) == multiset(list[..k]) + multiset(list[k..]);
    assert multiset(added[i]) == multiset(list) + multiset{r};
    ConcatAround<nat>(lists, i);
    ConcatAround<nat>(added, i);
    assert added[..i] + added[i + 1..] == lists[..i] + lists[i + 1..];
  }

  lemma ListStarts(lists: seq<seq<nat>>, r: nat)
    ensures Refs(lists + [[r]]) == Refs(lists) + multiset{r}
  {
    hide Concat;
    ConcatAppend<nat>(lists, [[r]]);
    ConcatOne<nat>([r]);
  }

  lemma OwnsNew(m: Memory, n: nat, k: Memory)
    requires Owned(m, n) && k.freed == m.freed
    requires Refs(k.lists) == Refs(m.lists) + multiset{n}
    ensures Owned(k, n + 1)
  {
    hide Concat;
    forall r: nat ensures Refs(k.lists)[r] == if r < n + 1 && r !in k.freed then 1 else 0 {
      CountSum(Refs(k.lists), Refs(m.lists), multiset{n}, r);
    }
  }

  /** The search for the slot and the insertion read only bundles that are there. */
  lemma LinkOwned(m: Memory, slots: seq<seq<Incoming>>, b: Incoming, n: nat)
    requires SlotsFilled(slots) && Parallel(m, slots) && Owned(m, n) && !m.misused
    ensures Owned(LinkMemory(m, slots, b, n), n + 1) && !LinkMemory(m, slots, b, n).misused
  {
    hide Concat, FindSlot, AddFragment, Position, Owned, UsedWith;
    var i := FindSlot(slots, KeyOf(b), 0);
    var heads := Heads(m.lists)[..LookedAt(i, |slots|)];
    NotFreed(m, n);
    forall o | o in heads ensures o !in m.freed {
      var j :| 0 <= j < |heads| && heads[j] == o;
      assert o in m.lists[j];
      ListOwned(m, n, j, o);
    }
    UsedWithMisuses(m, heads, n);
    var m1 := UsedWith(m, heads, n);
    if i < |slots| {
      var list, k := m.lists[i], Position(slots[i], b);
      var seen := list[..LookedAt(k, |list|)];
      forall o | o in seen ensures o !in m.freed {
        assert o in list;
        ListOwned(m, n, i, o);
      }
      UsedWithMisuses(m1, seen, n);
      ListGrows(m.lists, i, k, n);
    } else {
      ListStarts(m.lists, n);
    }
    OwnsNew(m, n, LinkMemory(m, slots, b, n));
  }

  lemma NotFreed(m: Memory, n: nat)
    requires Owned(m, n)
    ensures n !in m.freed
  {
  }

  /** The check reads, and the copying frees, only bundles that are there. */
  lemma TryOwned(m: Memory, slots: seq<seq<Incoming>>, i: nat, n: nat)
    requires Parallel(m, slots) && i < |slots| && Owned(m, n) && !m.misused
    ensures Owned(TryMemory(m, slots, i), n) && !TryMemory(m, slots, i).misused
  {
    hide Concat, CanReassemble, Checked, Owned, UsedAll, FreedAll;
    var list := m.lists[i];
    forall r | r in list ensures r < n && r !in m.freed && multiset(list)[r] == 1 {
      ListOwned(m, n, i, r);
    }
    var seen := list[..Checked(slots[i], 0)];
    assert forall r :: r in seen ==> r in list;
    UsedAllMisuses(m, seen);
    var m1 := UsedAll(m, seen);
    if CanReassemble(slots[i], 0) {
      FreedAllOnce(m1, list);
      ListRemoved(m, i, n, TryMemory(m, slots, i));
    } else {
      OwnedSame(m, m1, n);
    }
  }

  lemma OwnedSame(m: Memory, k: Memory, n: nat)
    requires Owned(m, n) && k.lists == m.lists && k.freed == m.freed
    ensures Owned(k, n)
  {
  }

  lemma ListRemoved(m: Memory, i: nat, n: nat, k: Memory)
    requires Owned(m, n) && i < |m.lists| && forall r :: r in k.freed <==> r in m.freed || r in m.lists[i]
    requires k.lists == m.lists[..i] + m.lists[i + 1..]
    ensures Owned(k, n)
  {
    hide Concat;
    ConcatAround<nat>(m.lists, i);
    forall r: nat ensures Refs(k.lists)[r] == if r < n && r !in k.freed then 1 else 0 {
      CountSum(Refs(m.lists), multiset(m.lists[i]), Refs(k.lists), r);
      if r in m.lists[i] {
        ListOwned(m, n, i, r);
      }
    }
    forall r | r in k.freed ensures r < n {
      if r in m.lists[i] {
        ListOwned(m, n, i, r);
      }
    }
  }

  // ---- One step

  lemma SafeStepOwned(s: State, m: Memory, e: Event, n: nat)
    requires SlotsFilled(s.slots) && Parallel(m, s.slots) && Owned(m, n) && !m.misused && !DiscardedButKept(s, e)
    ensures Owned(DeliverMemory(s, m, e.b, e.now, n), n + 1) && !DeliverMemory(s, m, e.b, e.now, n).misused
  {
    hide Concat, Owned, Record, LinkMemory, TryMemory, AddFragment, FindSlot;
    NotFreed(m, n);
    if Suppressed(s, e) || !IsFragment(e.b) {
      FreedAtOnce(m, n);
    } else {
      LinkOwned(m, s.slots, e.b, n);
      TryOwned(LinkMemory(m, s.slots, e.b, n), AddFragment(s.slots, e.b), FindSlot(s.slots, KeyOf(e.b), 0), n + 1);
    }
  }

  lemma FreedAtOnce(m: Memory, n: nat)
    requires Owned(m, n)
    ensures Owned(Freed(m, n), n + 1)
  {
    hide Concat;
  }

  lemma LinkMisuses(m: Memory, slots: seq<seq<Incoming>>, b: Incoming, r: nat)
    requires SlotsFilled(slots) && Parallel(m, slots)
    ensures m.misused || (slots != [] && r in m.freed) ==> LinkMemory(m, slots, b, r).misused
  {
    hide UsedWith, AddFragment, Position;
    var i := FindSlot(slots, KeyOf(b), 0);
    var heads := Heads(m.lists)[..LookedAt(i, |slots|)];
    UsedWithMisuses(m, heads, r);
    if i < |slots| {
      var list, k := m.lists[i], Position(slots[i], b);
      UsedWithMisuses(UsedWith(m, heads, r), list[..LookedAt(k, |list|)], r);
    }
  }

  lemma TryMisuses(m: Memory, slots: seq<seq<Incoming>>, i: nat)
    requires Parallel(m, slots) && i < |slots|
    ensures m.misused || (slots[i] != [] && m.lists[i][0] in m.freed) ==> TryMemory(m, slots, i).misused
  {
    hide CanReassemble, UsedAll, FreedAll;
    var list := m.lists[i];
    var seen := list[..Checked(slots[i], 0)];
    UsedAllMisuses(m, seen);
    if slots[i] != [] {
      assert seen[0] == list[0] && seen[0] in seen;
    }
    if UsedAll(m, seen).misused {
      FreedAllMisused(UsedAll(m, seen), list);
    }
  }

  /** A fragment that is freed and linked is read in the same call: it is compared
      with the slots if there are any, and else it is what the check reads. */
  lemma KeptIsMisused(s: State, m: Memory, e: Event, r: nat)
    requires SlotsFilled(s.slots) && Parallel(m, s.slots)
    ensures m.misused || DiscardedButKept(s, e) ==> DeliverMemory(s, m, e.b, e.now, r).misused
  {
    hide Record, LinkMemory, TryMemory, AddFragment, FindReassembled;
    if !Suppressed(s, e) && IsFragment(e.b) {
      var t := s.(known := Record(s.known, Entry(IdOf(e.b), e.b.deadline), e.now).1);
      var m1 := if OriginalKnown(t, e.b) then Freed(Used(m, r), r) else Used(Used(m, r), r);
      var m2 := LinkMemory(m1, s.slots, e.b, r);
      LinkMisuses(m1, s.slots, e.b, r);
      TryMisuses(m2, AddFragment(s.slots, e.b), FindSlot(s.slots, KeyOf(e.b), 0));
      if s.slots == [] {
        FirstLink(m1, e.b, r);
      }
    }
  }

  lemma FirstLink(m: Memory, b: Incoming, r: nat)
    requires m.lists == []
    ensures LinkMemory(m, [], b, r).lists == [[r]] && AddFragment([], b) == [[b]]
  {
    assert m.lists + [[r]] == [[r]];
  }

  // ---- Whole runs

  /** For every run: a bundle is read or freed after it was freed if and only if a
      freed bundle was linked, and up to that call every bundle is held by one
      place of the reassembly list or freed, so that none is lost either. */
  lemma {:induction false} MisusedExactly(events: seq<Event>)
    ensures RunMemory(events).misused <==> !Safe(events)
    ensures Safe(events) ==> Owned(RunMemory(events), |events|)
  {
    hide Owned, DeliverMemory, DiscardedButKept, Run, Safe;
    if events == [] {
      assert Safe(events) by { NothingKept(); }
      StartOwned();
    } else {
      var init, e := Init(events), Last(events);
      var s, m := Run(init), RunMemory(init);
      MisusedExactly(init);
      SafeStep(events);
      KeptIsMisused(s, m, e, |init|);
      if Safe(events) {
        SafeStepOwned(s, m, e, |init|);
      }
    }
  }

  lemma NothingKept()
    ensures Safe([])
  {
  }

  lemma StartOwned()
    ensures Owned(Memory([], {}, false), 0)
  {
  }

  /** The references in the reassembly list are those of the fragments there. */
  predicate Denotes(m: Memory, slots: seq<seq<Incoming>>, events: seq<Event>)
    requires Parallel(m, slots)
  {
    forall i, j :: 0 <= i < |slots| && 0 <= j < |slots[i]| ==>
      m.lists[i][j] < |events| && events[m.lists[i][j]].b == slots[i][j]
  }

  lemma {:induction false} PositionInserts(slot: seq<Incoming>, b: Incoming)
    ensures InsertByOffset(slot, b) == slot[..Position(slot, b)] + [b] + slot[Position(slot, b)..]
  {
    if slot != [] && slot[0].offset <= b.offset {
      PositionInserts(slot[1..], b);
      assert slot == [slot[0]] + slot[1..];
    }
  }

  lemma LinkDenotes(m: Memory, slots: seq<seq<Incoming>>, events: seq<Event>, e: Event)
    requires SlotsFilled(slots) && Parallel(m, slots) && Denotes(m, slots, events)
    ensures Denotes(LinkMemory(m, slots, e.b, |events|), AddFragment(slots, e.b), events + [e])
  {
    hide InsertByOffset, Position, UsedWith;
    var i, all := FindSlot(slots, KeyOf(e.b), 0), events + [e];
    assert all[|events|] == e && forall r :: 0 <= r < |events| ==> all[r] == events[r];
    if i < |slots| {
      PositionInserts(slots[i], e.b);
    }
  }

  lemma TryDenotes(m: Memory, slots: seq<seq<Incoming>>, i: nat, events: seq<Event>)
    requires Parallel(m, slots) && i < |slots| && Denotes(m, slots, events)
    ensures var n := TryMemory(m, slots, i);
      var rest := if CanReassemble(slots[i], 0) then slots[..i] + slots[i + 1..] else slots;
      Parallel(n, rest) && Denotes(n, rest, events)
  {
    hide CanReassemble, Checked, UsedAll, FreedAll, Denotes, Parallel;
    var n := TryMemory(m, slots, i);
    if CanReassemble(slots[i], 0) {
      RemovedDenotes(m, n, slots, i, events);
    } else {
      ParallelSame(m, n, slots);
      SameDenotes(m, n, slots, events);
    }
  }

  lemma ParallelSame(m: Memory, n: Memory, slots: seq<seq<Incoming>>)
    requires Parallel(m, slots) && n.lists == m.lists
    ensures Parallel(n, slots)
  {
  }

  lemma RemovedDenotes(m: Memory, n: Memory, slots: seq<seq<Incoming>>, i: nat, events: seq<Event>)
    requires Parallel(m, slots) && i < |slots| && Denotes(m, slots, events)
    requires n.lists == m.lists[..i] + m.lists[i + 1..]
    ensures var rest := slots[..i] + slots[i + 1..]; Parallel(n, rest) && Denotes(n, rest, events)
  {
    var rest := slots[..i] + slots[i + 1..];
    forall k | 0 <= k < |rest|
      ensures var o := if k < i then k else k + 1; rest[k] == slots[o] && n.lists[k] == m.lists[o]
    {
    }
  }

  lemma {:induction false} RunDenotes(events: seq<Event>)
    ensures Denotes(RunMemory(events), Run(events).slots, events)
  {
    hide Denotes, LinkMemory, TryMemory, AddFragment, CanReassemble, Record, FindSlot, CopyFrom, FindReassembled;
    if events == [] {
      StartDenotes();
    } else {
      var init, e := Init(events), Last(events);
      var s, m := Run(init), RunMemory(init);
      RunDenotes(init);
      assert events == init + [e];
      if Suppressed(s, e) || !IsFragment(e.b) {
        LaterDenotes(m, Freed(Used(m, |init|), |init|), s.slots, init, e);
      } else {
        var t := s.(known := Record(s.known, Entry(IdOf(e.b), e.b.deadline), e.now).1);
        var m1 := if OriginalKnown(t, e.b) then Freed(Used(m, |init|), |init|) else Used(Used(m, |init|), |init|);
        SameDenotes(m, m1, s.slots, init);
        LinkDenotes(m1, s.slots, init, e);
        TryDenotes(LinkMemory(m1, s.slots, e.b, |init|), AddFragment(s.slots, e.b),
                   FindSlot(s.slots, KeyOf(e.b), 0), events);
      }
    }
  }

  lemma StartDenotes()
    ensures Denotes(RunMemory([]), Run([]).slots, [])
  {
  }

  lemma SameDenotes(m: Memory, k: Memory, slots: seq<seq<Incoming>>, events: seq<Event>)
    requires Parallel(m, slots) && Denotes(m, slots, events) && k.lists == m.lists
    ensures Denotes(k, slots, events)
  {
  }

  lemma LaterDenotes(m: Memory, k: Memory, slots: seq<seq<Incoming>>, events: seq<Event>, e: Event)
    requires Parallel(m, slots) && Denotes(m, slots, events) && k.lists == m.lists
    ensures Denotes(k, slots, events + [e])
  {
  }

  // ---- Which arrivals are freed and linked

  /** A fragment arrives in time and for the first time, but its original counts as
      delivered: it was, or the fragment is all of it. */
  predicate OriginalCame(events: seq<Event>, e: Event) {
    && IsFragment(e.b) && e.now <= e.b.deadline && IdOf(e.b) !in Recorded(events)
    && (ReassembledId(e.b) in Recorded(events) || ReassembledId(e.b) == IdOf(e.b))
  }

  lemma KeptExactly(events: seq<Event>, e: Event, deadline: ParentId -> nat)
    requires Orderly(events + [e], deadline)
    ensures DiscardedButKept(Run(events), e) <==> OriginalCame(events, e)
  {
    hide Run, Recorded, Record, Orderly, FindReassembled, SlotsOrderly;
    var ids, s := Recorded(events), Run(events);
    OrderlyEnd(events, e, deadline);
    RunExact(events, deadline, e.now);
    RecordExact(s.known, ids, deadline, e.now, IdOf(e.b), e.now);
    var list := Record(s.known, Entry(IdOf(e.b), e.b.deadline), e.now).1;
    if !Suppressed(s, e) {
      ReassembledAnswers(list, Entry(ReassembledId(e.b), e.b.deadline), e.b.total);
    }
  }

  lemma OrderlyEnd(events: seq<Event>, e: Event, deadline: ParentId -> nat)
    requires Orderly(events + [e], deadline)
    ensures Orderly(events, deadline) && e.b.deadline == deadline(ParentOf(e.b))
    ensures forall i :: 0 <= i < |events| ==> events[i].now <= e.now
  {
    var all := events + [e];
    assert all[|events|] == e && forall i :: 0 <= i < |events| ==> events[i] == all[i];
  }

  /** In runs in which identities fix deadlines and the clock does not run backwards,
      no freed bundle is ever used if and only if no fragment arrives for the
      first time after its original came, and none covers its whole ADU. */
  lemma SafeExactly(events: seq<Event>, deadline: ParentId -> nat)
    requires Orderly(events, deadline)
    ensures !RunMemory(events).misused <==>
            forall k :: 0 <= k < |events| ==> !OriginalCame(events[..k], events[k])
  {
    hide RunMemory, Orderly, OriginalCame, DiscardedButKept, Safe, Run;
    MisusedExactly(events);
    SafeEverywhere(events);
    forall k | 0 <= k < |events|
      ensures DiscardedButKept(Run(events[..k]), events[k]) <==> OriginalCame(events[..k], events[k])
    {
      OrderlyPrefix(events, deadline, k);
      KeptExactly(events[..k], events[k], deadline);
    }
  }
}
