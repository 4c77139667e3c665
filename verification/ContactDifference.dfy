/** `contact_list_difference` of components/ud3tn/node.c: a single sweep over two
    sorted lists that deletes or trims matching contacts. */
module ContactDifference {
  import opened Contacts
  import opened ContactUnion
  import EndpointList

  predicate Matches(c: Contact, d: Contact) {
    c.fromMs == d.fromMs && c.toMs == d.toMs
  }

  function Trimmed(c: Contact, candidate: Contact): Contact {
    c.(endpoints := EndpointList.Difference(c.endpoints, candidate.endpoints))
  }

  /** The list that stays, the contacts changed in memory, and the contacts
      trimmed and deleted, the last one first. */
  datatype Outcome = Outcome(list: seq<Ref>, changes: map<Ref, Contact>, modified: seq<Ref>, deleted: seq<Ref>)

  // ---- The sweep

  function Sweep(heap: ContactMap, a: seq<Ref>, b: seq<Ref>): Outcome
    requires Listed(heap, a) && Listed(heap, b)
    decreases |a| + |b|
  {
    if a == [] then Outcome([], map[], [], [])
    else if b == [] || heap[b[0]].fromMs > heap[a[0]].fromMs then
      var r := Sweep(heap, a[1..], b);
      r.(list := [a[0]] + r.list)
    else if Matches(heap[b[0]], heap[a[0]]) then
      var r := Sweep(heap, a[1..], b[1..]);
      if heap[b[0]].endpoints == [] then r.(deleted := r.deleted + [a[0]])
      else Outcome([a[0]] + r.list, map[a[0] := Trimmed(heap[a[0]], heap[b[0]])] + r.changes,
                   r.modified + [a[0]], r.deleted)
    else Sweep(heap, a, b[1..])
  }

  // ---- The plain filter

  /** The candidate that deletes, or trims, a contact. */
  ghost predicate Deletes(heap: ContactMap, b: seq<Ref>, c: Contact)
    requires Listed(heap, b)
  {
    exists x :: x in b && Matches(heap[x], c) && heap[x].endpoints == []
  }

  ghost predicate Trims(heap: ContactMap, b: seq<Ref>, x: Ref, c: Contact)
    requires Listed(heap, b)
  {
    x in b && Matches(heap[x], c) && heap[x].endpoints != []
  }

  ghost predicate Trimming(heap: ContactMap, b: seq<Ref>, c: Contact)
    requires Listed(heap, b)
  {
    exists x :: Trims(heap, b, x, c)
  }

  /** The contacts no candidate deletes, in order. */
  ghost function Staying(heap: ContactMap, a: seq<Ref>, b: seq<Ref>): seq<Ref>
    requires Listed(heap, a) && Listed(heap, b)
  {
    if a == [] then []
    else (if Deletes(heap, b, heap[a[0]]) then [] else [a[0]]) + Staying(heap, a[1..], b)
  }

  ghost function Deleted(heap: ContactMap, a: seq<Ref>, b: seq<Ref>): seq<Ref>
    requires Listed(heap, a) && Listed(heap, b)
  {
    if a == [] then []
    else Deleted(heap, a[1..], b) + (if Deletes(heap, b, heap[a[0]]) then [a[0]] else [])
  }

  ghost function Modified(heap: ContactMap, a: seq<Ref>, b: seq<Ref>): seq<Ref>
    requires Listed(heap, a) && Listed(heap, b)
  {
    if a == [] then []
    else Modified(heap, a[1..], b) + (if Trimming(heap, b, heap[a[0]]) then [a[0]] else [])
  }

  /** Exactly the matched contacts of the list are changed, by the endpoints of
      the candidate that matches. */
  ghost predicate ChangesExactly(heap: ContactMap, a: seq<Ref>, b: seq<Ref>, changes: map<Ref, Contact>)
    requires Listed(heap, a) && Listed(heap, b)
  {
    && (forall x :: x in changes <==> x in a && Trimming(heap, b, heap[x]))
    && (forall x, y :: x in changes && Trims(heap, b, y, heap[x]) ==> changes[x] == Trimmed(heap[x], heap[y]))
  }

  ghost predicate IsFilter(heap: ContactMap, a: seq<Ref>, b: seq<Ref>, r: Outcome)
    requires Listed(heap, a) && Listed(heap, b)
  {
    && r.list == Staying(heap, a, b)
    && r.deleted == Deleted(heap, a, b)
    && r.modified == Modified(heap, a, b)
    && ChangesExactly(heap, a, b, r.changes)
  }

  // ---- The sweep is the filter

  /** A candidate that starts before all contacts of the list, or matches none of
      them, does not matter. */
  lemma {:induction false} UselessCandidate(heap: ContactMap, a: seq<Ref>, b: seq<Ref>, r: Outcome)
    requires Listed(heap, a) && Listed(heap, b) && b != []
    requires forall x :: x in a ==> !Matches(heap[b[0]], heap[x])
    requires IsFilter(heap, a, b[1..], r)
    ensures IsFilter(heap, a, b, r)
  {
    hide Staying, Deleted, Modified;
    assert b == [b[0]] + b[1..];
    forall x | x in a
      ensures Deletes(heap, b, heap[x]) <==> Deletes(heap, b[1..], heap[x])
      ensures forall y :: Trims(heap, b, y, heap[x]) <==> Trims(heap, b[1..], y, heap[x])
    {
    }
    forall x | x in a ensures Trimming(heap, b, heap[x]) <==> Trimming(heap, b[1..], heap[x]) {
      if Trimming(heap, b, heap[x]) {
        var y :| Trims(heap, b, y, heap[x]);
        assert Trims(heap, b[1..], y, heap[x]);
      }
      if Trimming(heap, b[1..], heap[x]) {
        var y :| Trims(heap, b[1..], y, heap[x]);
        assert Trims(heap, b, y, heap[x]);
      }
    }
    SameFilter(heap, a, b, b[1..]);
  }

  lemma {:induction false} SameFilter(heap: ContactMap, a: seq<Ref>, b: seq<Ref>, d: seq<Ref>)
    requires Listed(heap, a) && Listed(heap, b) && Listed(heap, d)
    requires forall x :: x in a ==> (Deletes(heap, b, heap[x]) <==> Deletes(heap, d, heap[x]))
                                    && (Trimming(heap, b, heap[x]) <==> Trimming(heap, d, heap[x]))
    ensures Staying(heap, a, b) == Staying(heap, a, d)
    ensures Deleted(heap, a, b) == Deleted(heap, a, d)
    ensures Modified(heap, a, b) == Modified(heap, a, d)
  {
    hide Deletes, Trimming;
    if a != [] {
      SameFilter(heap, a[1..], b, d);
    }
  }

  lemma FrontKept(heap: ContactMap, a: seq<Ref>, b: seq<Ref>, r: Outcome)
    requires Listed(heap, a) && Listed(heap, b) && a != [] && IsFilter(heap, a[1..], b, r)
    requires !Deletes(heap, b, heap[a[0]]) && !Trimming(heap, b, heap[a[0]])
    ensures IsFilter(heap, a, b, r.(list := [a[0]] + r.list))
  {
    hide Deletes, Trimming, Trims;
    assert a == [a[0]] + a[1..];
  }

  lemma FrontDeleted(heap: ContactMap, a: seq<Ref>, b: seq<Ref>, r: Outcome)
    requires Listed(heap, a) && Listed(heap, b) && a != [] && IsFilter(heap, a[1..], b, r)
    requires Deletes(heap, b, heap[a[0]]) && !Trimming(heap, b, heap[a[0]])
    ensures IsFilter(heap, a, b, r.(deleted := r.deleted + [a[0]]))
  {
    hide Deletes, Trimming, Trims;
    assert a == [a[0]] + a[1..];
  }

  lemma FrontTrimmed(heap: ContactMap, a: seq<Ref>, b: seq<Ref>, y: Ref, r: Outcome)
    requires Listed(heap, a) && Listed(heap, b) && a != [] && IsFilter(heap, a[1..], b, r)
    requires a[0] !in a[1..]
    requires !Deletes(heap, b, heap[a[0]]) && Trims(heap, b, y, heap[a[0]])
    requires forall z :: Trims(heap, b, z, heap[a[0]]) ==> z == y
    ensures IsFilter(heap, a, b, Outcome([a[0]] + r.list, map[a[0] := Trimmed(heap[a[0]], heap[y])] + r.changes,
                                         r.modified + [a[0]], r.deleted))
  {
    hide Deletes, Trims, Trimmed;
    assert a == [a[0]] + a[1..];
    assert Trimming(heap, b, heap[a[0]]);
    assert a[0] !in r.changes;
  }

  lemma SortedTail(heap: ContactMap, a: seq<Ref>)
    requires Listed(heap, a) && a != [] && StrictlySorted(heap, a)
    ensures StrictlySorted(heap, a[1..])
    ensures forall x :: x in a[1..] ==> heap[x].fromMs > heap[a[0]].fromMs
  {
    assert forall i :: 0 <= i < |a[1..]| ==> a[1..][i] == a[i + 1];
  }

  lemma MatchedOnlyByFirst(heap: ContactMap, b: seq<Ref>, c: Contact)
    requires Listed(heap, b) && b != [] && StrictlySorted(heap, b) && heap[b[0]].fromMs == c.fromMs
    ensures forall z :: z in b && Matches(heap[z], c) ==> z == b[0]
  {
    SortedTail(heap, b);
    assert b == [b[0]] + b[1..];
  }

  /** The sweep over two lists strictly sorted by start is the plain filter:
      contacts matched on both times by a candidate without endpoints are
      deleted, those matched by one with endpoints lose these, the rest stays. */
  lemma {:induction false} DifferenceIsFilter(heap: ContactMap, a: seq<Ref>, b: seq<Ref>)
    requires Listed(heap, a) && Listed(heap, b) && StrictlySorted(heap, a) && StrictlySorted(heap, b)
    ensures IsFilter(heap, a, b, Sweep(heap, a, b))
    decreases |a| + |b|
  {
    hide StrictlySorted, Staying, Deleted, Modified, Trimmed, ChangesExactly, IsFilter;
    if a == [] {
      NothingToFilter(heap, b);
    } else if b == [] || heap[b[0]].fromMs > heap[a[0]].fromMs {
      SortedTail(heap, a);
      DifferenceIsFilter(heap, a[1..], b);
      if b != [] {
        SortedTail(heap, b);
        assert b == [b[0]] + b[1..];
      }
      FrontKept(heap, a, b, Sweep(heap, a[1..], b));
    } else {
      SortedTail(heap, b);
      SortedTail(heap, a);
      assert a == [a[0]] + a[1..];
      if Matches(heap[b[0]], heap[a[0]]) {
        DifferenceIsFilter(heap, a[1..], b[1..]);
        var r := Sweep(heap, a[1..], b[1..]);
        UselessCandidate(heap, a[1..], b, r);
        MatchedOnlyByFirst(heap, b, heap[a[0]]);
        if heap[b[0]].endpoints == [] {
          assert Deletes(heap, b, heap[a[0]]);
          FrontDeleted(heap, a, b, r);
        } else {
          assert Trims(heap, b, b[0], heap[a[0]]);
          FrontTrimmed(heap, a, b, b[0], r);
        }
      } else {
        DifferenceIsFilter(heap, a, b[1..]);
        UselessCandidate(heap, a, b, Sweep(heap, a, b[1..]));
      }
    }
  }

  lemma NothingToFilter(heap: ContactMap, b: seq<Ref>)
    requires Listed(heap, b)
    ensures IsFilter(heap, [], b, Outcome([], map[], [], []))
  {
  }

  /** A trimmed contact keeps its window and loses exactly the candidate's
      endpoints. */
  lemma TrimmedLosesExactly(c: Contact, candidate: Contact)
    requires EndpointList.Distinct(c.endpoints)
    ensures EndpointList.Names(Trimmed(c, candidate).endpoints)
            == EndpointList.Names(c.endpoints) - EndpointList.Names(candidate.endpoints)
    ensures EndpointList.Distinct(Trimmed(c, candidate).endpoints)
    ensures Matches(Trimmed(c, candidate), c)
  {
    EndpointList.DifferenceMeans(c.endpoints, candidate.endpoints);
  }

  // ---- The loops

  /** What is done so far, with what the rest of the sweep adds. */
  function Onward(list: seq<Ref>, changes: map<Ref, Contact>, modified: seq<Ref>, deleted: seq<Ref>,
                  r: Outcome): Outcome {
    Outcome(list + r.list, changes + r.changes, r.modified + modified, r.deleted + deleted)
  }

  lemma OnwardStart(r: Outcome)
    ensures Onward([], map[], [], [], r) == r
  {
    assert map[] + r.changes == r.changes;
  }

  lemma SweepStop(heap: ContactMap, b: seq<Ref>, list: seq<Ref>, changes: map<Ref, Contact>, modified: seq<Ref>,
                  deleted: seq<Ref>)
    requires Listed(heap, b)
    ensures Onward(list, changes, modified, deleted, Sweep(heap, [], b)) == Outcome(list, changes, modified, deleted)
  {
    assert changes + map[] == changes;
  }

  /** One move of the sweep. */
  lemma SweepStep(heap: ContactMap, a: seq<Ref>, b: seq<Ref>, list: seq<Ref>, changes: map<Ref, Contact>,
                  modified: seq<Ref>, deleted: seq<Ref>)
    requires Listed(heap, a) && Listed(heap, b) && a != []
    ensures Onward(list, changes, modified, deleted, Sweep(heap, a, b))
            == if b == [] || heap[b[0]].fromMs > heap[a[0]].fromMs then
                 Onward(list + [a[0]], changes, modified, deleted, Sweep(heap, a[1..], b))
               else if !Matches(heap[b[0]], heap[a[0]]) then
                 Onward(list, changes, modified, deleted, Sweep(heap, a, b[1..]))
               else if heap[b[0]].endpoints == [] then
                 Onward(list, changes, modified, [a[0]] + deleted, Sweep(heap, a[1..], b[1..]))
               else
                 Onward(list + [a[0]], changes[a[0] := Trimmed(heap[a[0]], heap[b[0]])], [a[0]] + modified, deleted,
                        Sweep(heap, a[1..], b[1..]))
  {
    hide Trimmed, Matches;
    if b == [] || heap[b[0]].fromMs > heap[a[0]].fromMs {
      Associative(list, a[0], Sweep(heap, a[1..], b).list);
    } else if Matches(heap[b[0]], heap[a[0]]) {
      var r := Sweep(heap, a[1..], b[1..]);
      if heap[b[0]].endpoints == [] {
        Associative(r.deleted, a[0], deleted);
      } else {
        Associative(list, a[0], r.list);
        Associative(r.modified, a[0], modified);
        ChangeFirst(changes, a[0], Trimmed(heap[a[0]], heap[b[0]]), r.changes);
      }
    }
  }

  lemma Associative(x: seq<Ref>, a: Ref, y: seq<Ref>)
    ensures x + [a] + y == x + ([a] + y)
  {
  }

  lemma ChangeFirst(x: map<Ref, Contact>, a: Ref, c: Contact, y: map<Ref, Contact>)
    ensures x + (map[a := c] + y) == x[a := c] + y
  {
  }

  /** `contact_list_difference`, with lists for what is modified and deleted. */
  method ContactListDifference(h: Heap, a: seq<Ref>, b: seq<Ref>)
    returns (list: seq<Ref>, modified: seq<Ref>, deleted: seq<Ref>, ghost changes: map<Ref, Contact>)
    requires Listed(h.contacts, a) && Listed(h.contacts, b)
    requires forall x :: x in a ==> x !in b
    requires forall i, j :: 0 <= i < j < |a| ==> a[i] != a[j]
    modifies h`contacts
    ensures Outcome(list, changes, modified, deleted) == Sweep(old(h.contacts), a, b)
    ensures h.contacts == old(h.contacts) + changes
  {
    hide Sweep, Onward;
    ghost var heap := h.contacts;
    ghost var whole := Sweep(heap, a, b);
    var slots, rest := a, b;
    list, modified, deleted, changes := [], [], [], map[];
    OnwardStart(whole);
    assert heap + map[] == heap;
    while slots != []
      invariant Listed(heap, slots) && Listed(heap, rest)
      invariant Pending(slots, rest, changes)
      invariant h.contacts == heap + changes
      invariant whole == Onward(list, changes, modified, deleted, Sweep(heap, slots, rest))
      decreases |slots|
    {
      ghost var before := |slots|;
      while slots != [] && rest != [] && h.contacts[rest[0]].fromMs <= h.contacts[slots[0]].fromMs
        invariant Listed(heap, slots) && Listed(heap, rest)
        invariant |slots| <= before && Pending(slots, rest, changes)
        invariant h.contacts == heap + changes
        invariant whole == Onward(list, changes, modified, deleted, Sweep(heap, slots, rest))
        decreases rest
      {
        var slot, candidate := slots[0], rest[0];
        SweepStep(heap, slots, rest, list, changes, modified, deleted);
        PendingNext(slots, rest, changes, Trimmed(heap[slot], heap[candidate]));
        if Matches(h.contacts[candidate], h.contacts[slot]) {
          if h.contacts[candidate].endpoints == [] {
            deleted := [slot] + deleted;
          } else {
            var endpoints := EndpointList.DifferenceEndpoints(h.contacts[slot].endpoints,
                                                              h.contacts[candidate].endpoints);
            changes := changes[slot := Trimmed(heap[slot], heap[candidate])];
            h.contacts := h.contacts[slot := h.contacts[slot].(endpoints := endpoints)];
            modified := [slot] + modified;
            list := list + [slot];
          }
          slots := slots[1..];
        }
        rest := rest[1..];
      }
      if slots != [] {
        SweepStep(heap, slots, rest, list, changes, modified, deleted);
        PendingNext(slots, rest, changes, heap[slots[0]]);
        list := list + [slots[0]];
        slots := slots[1..];
      }
    }
    SweepStop(heap, rest, list, changes, modified, deleted);
  }

  /** Contacts still to be visited are distinct and not changed yet. */
  predicate Pending(slots: seq<Ref>, rest: seq<Ref>, changes: map<Ref, Contact>) {
    && (forall i, j :: 0 <= i < j < |slots| ==> slots[i] != slots[j])
    && (forall x :: x in slots ==> x !in rest && x !in changes)
    && (forall x :: x in rest ==> x !in changes)
  }

  lemma PendingNext(slots: seq<Ref>, rest: seq<Ref>, changes: map<Ref, Contact>, c: Contact)
    requires Pending(slots, rest, changes) && slots != []
    ensures slots[0] !in slots[1..] && slots[0] !in rest
    ensures Pending(slots[1..], rest, changes)
    ensures rest != [] ==> Pending(slots[1..], rest[1..], changes) && Pending(slots, rest[1..], changes)
    ensures rest != [] ==> Pending(slots[1..], rest[1..], changes[slots[0] := c])
  {
    assert forall i :: 0 <= i < |slots| - 1 ==> slots[1..][i] == slots[i + 1];
    assert slots[0] !in slots[1..];
  }
}
