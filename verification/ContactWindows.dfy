/** Windows of contacts through the union of contact lists: when they stay as they
    are, when they stay apart, and that they stay within what a configuration
    command can bring in. */
module ContactWindows {
  import opened Octets
  import opened Contacts
  import opened ContactUnion
  import Capacity
  import Config
  import ConfigRoundTrip
  import EndpointList

  // ---- Windows that stay as they are

  predicate Within(inner: Contact, outer: Contact) {
    outer.fromMs <= inner.fromMs && inner.toMs <= outer.toMs
  }

  predicate SameWindow(c: Contact, d: Contact) {
    c.fromMs == d.fromMs && c.toMs == d.toMs
  }

  /** Every candidate that overlaps the contact lies inside it. */
  predicate Inside(heap: ContactMap, b: seq<Ref>, c: Contact)
    requires Listed(heap, b)
  {
    forall x :: x in b && Overlap(heap[x], c) ==> Within(heap[x], c)
  }

  lemma MergeWithin(nodes: NodeMap, held: Contact, candidate: Contact)
    requires Within(candidate, held)
    ensures SameWindow(Merge(held, candidate).0, held)
  {
    hide Merge;
    MergeKeeps(nodes, held, candidate);
  }

  lemma {:induction false} EarlierInside(heap: ContactMap, nodes: NodeMap, slot: Contact, from: nat, b: seq<Ref>)
    requires Listed(heap, b) && Inside(heap, b, slot)
    ensures SameWindow(TakeEarlier(heap, nodes, slot, from, b).slot, slot)
    decreases b
  {
    hide Merge, SameNode;
    if b != [] && heap[b[0]].fromMs <= from {
      if Overlap(heap[b[0]], slot) {
        MergeWithin(nodes, slot, heap[b[0]]);
        EarlierInside(heap, nodes, Merge(slot, heap[b[0]]).0, from, b[1..]);
      }
      EarlierInside(heap, nodes, slot, from, b[1..]);
    }
  }

  lemma {:induction false} OverlappingInside(heap: ContactMap, nodes: NodeMap, slot: Contact, b: seq<Ref>)
    requires Listed(heap, b) && Inside(heap, b, slot)
    requires forall x :: x in b ==> slot.fromMs < heap[x].fromMs < heap[x].toMs
    ensures SameWindow(TakeOverlapping(heap, nodes, slot, slot.toMs, b).slot, slot)
    decreases b
  {
    hide Merge, SameNode;
    if b != [] {
      assert b[0] in b;
      if heap[b[0]].fromMs < slot.toMs {
        MergeWithin(nodes, slot, heap[b[0]]);
        OverlappingInside(heap, nodes, Merge(slot, heap[b[0]]).0, b[1..]);
      }
      OverlappingInside(heap, nodes, slot, b[1..]);
    }
  }

  lemma SlotInside(heap: ContactMap, nodes: NodeMap, a: Ref, b: seq<Ref>, eid: string)
    requires a in heap && heap[a].fromMs < heap[a].toMs && EidOf(nodes, heap[a]) == Some(eid)
    requires Sound(heap, nodes, b, eid) && Inside(heap, b, heap[a])
    ensures SameWindow(Slot(heap, nodes, a, b).slot, heap[a])
  {
    hide TakeEarlier, TakeOverlapping, StrictlySorted, OfNode, EidOf;
    var cur := heap[a];
    EarlierInside(heap, nodes, cur, cur.fromMs, b);
    EarlierSound(heap, nodes, cur, cur.fromMs, b, eid, -1);
    var earlier := TakeEarlier(heap, nodes, cur, cur.fromMs, b);
    forall x | x in earlier.rest ensures heap[x].fromMs < heap[x].toMs {
      var i :| 0 <= i < |earlier.rest| && earlier.rest[i] == x;
    }
    OverlappingInside(heap, nodes, earlier.slot, earlier.rest);
  }

  /** If every candidate lies inside each contact it overlaps, no window changes. */
  lemma {:induction false} UnionRetimesNothing(heap: ContactMap, nodes: NodeMap, a: seq<Ref>, b: seq<Ref>, eid: string)
    requires Sound(heap, nodes, a, eid) && Sound(heap, nodes, b, eid)
    requires forall x :: x in a ==> x !in b
    requires forall x :: x in a ==> Inside(heap, b, heap[x])
    ensures var r := Union(heap, nodes, a, b);
      r.heap.Keys == heap.Keys && forall x :: x in heap ==> SameWindow(r.heap[x], heap[x])
    decreases a
  {
    hide StrictlySorted, NonEmptyWindows, OfNode, EidOf, Slot, Overlap;
    if a != [] {
      SoundHead(heap, nodes, a, eid);
      SoundTail(heap, nodes, a, eid);
      var slot := Slot(heap, nodes, a[0], b);
      SlotSound(heap, nodes, a[0], b, eid, -1);
      SlotInside(heap, nodes, a[0], b, eid);
      var next := heap[a[0] := slot.slot];
      SoundAgree(heap, next, nodes, a[1..], eid);
      SoundAgree(heap, next, nodes, slot.rest, eid);
      UnionRetimesNothing(next, nodes, a[1..], slot.rest, eid);
    }
  }

  // ---- Windows that stay apart

  predicate Apart(heap: ContactMap, list: seq<Ref>)
    requires Listed(heap, list)
  {
    forall i, j :: 0 <= i < j < |list| ==> heap[list[i]].toMs <= heap[list[j]].fromMs
  }

  /** A candidate overlaps two contacts of the list. */
  predicate Bridges(heap: ContactMap, a: seq<Ref>, b: seq<Ref>)
    requires Listed(heap, a) && Listed(heap, b)
  {
    exists x, i, j :: x in b && 0 <= i < j < |a| && Overlap(heap[x], heap[a[i]]) && Overlap(heap[x], heap[a[j]])
  }

  lemma ApartTail(heap: ContactMap, b: seq<Ref>)
    requires Listed(heap, b) && Apart(heap, b) && b != []
    ensures Apart(heap, b[1..]) && forall x :: x in b[1..] ==> heap[b[0]].toMs <= heap[x].fromMs
  {
    assert forall i :: 0 <= i < |b[1..]| ==> b[1..][i] == b[i + 1];
  }

  lemma ApartCons(heap: ContactMap, x: Ref, list: seq<Ref>)
    requires x in heap && Listed(heap, list) && Apart(heap, list)
    requires forall y :: y in list ==> heap[x].toMs <= heap[y].fromMs
    ensures Apart(heap, [x] + list)
  {
    assert forall i :: 0 < i < |[x] + list| ==> ([x] + list)[i] == list[i - 1] && list[i - 1] in list;
  }

  lemma ApartConcat(heap: ContactMap, x: seq<Ref>, y: seq<Ref>)
    requires Listed(heap, x) && Listed(heap, y)
    ensures Listed(heap, x + y)
    ensures Apart(heap, x + y) <==>
      Apart(heap, x) && Apart(heap, y) && forall u, v :: u in x && v in y ==> heap[u].toMs <= heap[v].fromMs
  {
    var r := x + y;
    assert forall i :: 0 <= i < |x| ==> r[i] == x[i] && x[i] in x;
    assert forall i :: |x| <= i < |r| ==> r[i] == y[i - |x|] && y[i - |x|] in y;
    if Apart(heap, r) {
      forall u, v | u in x && v in y ensures heap[u].toMs <= heap[v].fromMs {
        var i :| 0 <= i < |x| && x[i] == u;
        var j :| 0 <= j < |y| && y[j] == v;
        assert r[i] == u && r[|x| + j] == v;
      }
      assert forall i, j :: 0 <= i < j < |y| ==> r[|x| + i] == y[i] && r[|x| + j] == y[j];
    }
  }

  lemma ApartAgree(heap: ContactMap, other: ContactMap, list: seq<Ref>)
    requires Listed(heap, list) && Apart(heap, list) && Agree(heap, other, list)
    ensures Listed(other, list) && Apart(other, list)
  {
    assert forall x :: x in list ==> exists i :: 0 <= i < |list| && list[i] == x;
  }

  /** The first pass over candidates that are apart: what becomes of them. */
  predicate EarlierDone(heap: ContactMap, slot: Contact, b: seq<Ref>, r: Pass)
    requires Listed(heap, b) && Listed(heap, r.placed) && Listed(heap, r.rest)
  {
    && Apart(heap, r.placed) && Apart(heap, r.rest)
    && (forall x :: x in r.placed ==> heap[x].toMs <= r.slot.fromMs && heap[x].toMs <= slot.fromMs)
    && (forall x :: x in b ==> x in r.placed || x in r.rest || (Overlap(heap[x], slot) && heap[x].toMs <= r.slot.toMs))
    && (r.slot.fromMs == slot.fromMs || exists y :: y in b && heap[y].fromMs == r.slot.fromMs)
    && r.slot.toMs >= slot.toMs
    && (r.slot.toMs == slot.toMs
        || ((exists y :: y in b && Overlap(heap[y], slot) && heap[y].toMs == r.slot.toMs)
            && forall x :: x in r.rest ==> heap[x].fromMs >= r.slot.toMs))
  }

  lemma EarlierMerged(heap: ContactMap, nodes: NodeMap, slot: Contact, b: seq<Ref>, eid: string)
    requires Sound(heap, nodes, b, eid) && Apart(heap, b) && EidOf(nodes, slot) == Some(eid)
    requires b != [] && heap[b[0]].fromMs <= slot.fromMs && Overlap(heap[b[0]], slot)
    ensures var r := TakeEarlier(heap, nodes, slot, slot.fromMs, b);
      r.placed == [] && r.slot == Merge(slot, heap[b[0]]).0 && r.rest == b[1..]
  {
    hide StrictlySorted, NonEmptyWindows, Merge, Apart;
    SoundHead(heap, nodes, b, eid);
    ApartTail(heap, b);
    var merged := Merge(slot, heap[b[0]]).0;
    if b[1..] != [] {
      assert b[1..][0] in b[1..];
    }
    assert TakeEarlier(heap, nodes, merged, slot.fromMs, b[1..]) == Pass([], merged, b[1..], 0);
  }

  lemma EarlierAbsorbed(heap: ContactMap, slot: Contact, b: seq<Ref>, r: Pass)
    requires Listed(heap, b) && Apart(heap, b) && b != []
    requires Overlap(heap[b[0]], slot) && heap[b[0]].fromMs <= slot.fromMs
    requires r.placed == [] && r.rest == b[1..]
    requires r.slot.fromMs == heap[b[0]].fromMs
    requires r.slot.toMs == if heap[b[0]].toMs > slot.toMs then heap[b[0]].toMs else slot.toMs
    ensures EarlierDone(heap, slot, b, r)
  {
    hide Apart;
    ApartTail(heap, b);
    NothingApart(heap);
    assert b[0] in b && b == [b[0]] + b[1..];
  }

  lemma EarlierNothing(heap: ContactMap, slot: Contact, b: seq<Ref>, r: Pass)
    requires Listed(heap, b) && Apart(heap, b) && r.placed == [] && r.rest == b && r.slot == slot
    ensures EarlierDone(heap, slot, b, r)
  {
    hide Apart;
    NothingApart(heap);
  }

  lemma EarlierPlaced(heap: ContactMap, slot: Contact, b: seq<Ref>, t: Pass, r: Pass)
    requires Listed(heap, b) && Apart(heap, b) && b != [] && Listed(heap, t.placed) && Listed(heap, t.rest)
    requires EarlierDone(heap, slot, b[1..], t) && forall x :: x in t.placed ==> x in b[1..]
    requires heap[b[0]].toMs <= slot.fromMs
    requires r.placed == [b[0]] + t.placed && r.rest == t.rest && r.slot == t.slot
    ensures EarlierDone(heap, slot, b, r)
  {
    hide Apart;
    ApartTail(heap, b);
    ApartCons(heap, b[0], t.placed);
    assert b == [b[0]] + b[1..];
  }

  lemma NothingApart(heap: ContactMap)
    ensures Apart(heap, [])
  {
  }

  lemma {:induction false} EarlierApart(heap: ContactMap, nodes: NodeMap, slot: Contact, b: seq<Ref>, eid: string)
    requires Sound(heap, nodes, b, eid) && Apart(heap, b) && EidOf(nodes, slot) == Some(eid) && slot.fromMs < slot.toMs
    ensures EarlierDone(heap, slot, b, TakeEarlier(heap, nodes, slot, slot.fromMs, b))
    decreases b
  {
    hide StrictlySorted, NonEmptyWindows, OfNode, Merge, EidOf, Apart, EarlierDone;
    var r := TakeEarlier(heap, nodes, slot, slot.fromMs, b);
    if b == [] || heap[b[0]].fromMs > slot.fromMs {
      EarlierNothing(heap, slot, b, r);
    } else if Overlap(heap[b[0]], slot) {
      EarlierMerged(heap, nodes, slot, b, eid);
      MergeKeeps(nodes, slot, heap[b[0]]);
      EarlierAbsorbed(heap, slot, b, r);
    } else {
      SoundTail(heap, nodes, b, eid);
      ApartTail(heap, b);
      EarlierApart(heap, nodes, slot, b[1..], eid);
      EarlierPlaced(heap, slot, b, TakeEarlier(heap, nodes, slot, slot.fromMs, b[1..]), r);
    }
  }

  lemma {:induction false} NoneTaken(heap: ContactMap, nodes: NodeMap, slot: Contact, to: nat, b: seq<Ref>)
    requires Listed(heap, b) && forall x :: x in b ==> heap[x].fromMs >= to
    ensures TakeOverlapping(heap, nodes, slot, to, b) == Pass([], slot, b, 0)
    decreases b
  {
    hide Merge, SameNode;
    if b != [] {
      assert b[0] in b && b == [b[0]] + b[1..];
      NoneTaken(heap, nodes, slot, to, b[1..]);
    }
  }

  predicate OverlappingDone(heap: ContactMap, slot: Contact, to: nat, b: seq<Ref>, r: Pass)
    requires Listed(heap, b) && Listed(heap, r.rest)
  {
    && Apart(heap, r.rest)
    && (forall x :: x in r.rest ==> heap[x].fromMs >= r.slot.toMs)
    && (forall x :: x in b ==> x in r.rest || (heap[x].fromMs < to && heap[x].toMs <= r.slot.toMs))
    && r.slot.fromMs == slot.fromMs && r.slot.toMs >= slot.toMs
    && (r.slot.toMs == slot.toMs || exists y :: y in b && heap[y].fromMs < to && heap[y].toMs == r.slot.toMs)
  }

  lemma {:induction false} OverlappingApart(heap: ContactMap, nodes: NodeMap, slot: Contact, to: nat, b: seq<Ref>,
                                            eid: string)
    requires Sound(heap, nodes, b, eid) && Apart(heap, b) && EidOf(nodes, slot) == Some(eid)
    requires to <= slot.toMs && forall x :: x in b ==> heap[x].fromMs > slot.fromMs
    requires slot.toMs == to || forall x :: x in b ==> heap[x].fromMs >= slot.toMs
    ensures OverlappingDone(heap, slot, to, b, TakeOverlapping(heap, nodes, slot, to, b))
    decreases b
  {
    hide StrictlySorted, NonEmptyWindows, OfNode, Merge, EidOf, Apart, OverlappingDone;
    if b == [] {
      OverlappingNothing(heap, slot, to, b, TakeOverlapping(heap, nodes, slot, to, b));
    } else {
      SoundHead(heap, nodes, b, eid);
      SoundTail(heap, nodes, b, eid);
      ApartTail(heap, b);
      assert b[0] in b && b == [b[0]] + b[1..];
      if heap[b[0]].fromMs < to {
        MergeKeeps(nodes, slot, heap[b[0]]);
        var merged := Merge(slot, heap[b[0]]).0;
        OverlappingApart(heap, nodes, merged, to, b[1..], eid);
        OverlappingMore(heap, slot, merged, to, b, TakeOverlapping(heap, nodes, merged, to, b[1..]));
        TakenAgain(heap, slot, to, b, TakeOverlapping(heap, nodes, merged, to, b[1..]),
                   TakeOverlapping(heap, nodes, slot, to, b));
      } else {
        NoneTaken(heap, nodes, slot, to, b);
        OverlappingNothing(heap, slot, to, b, TakeOverlapping(heap, nodes, slot, to, b));
      }
    }
  }

  lemma OverlappingNothing(heap: ContactMap, slot: Contact, to: nat, b: seq<Ref>, r: Pass)
    requires Listed(heap, b) && Apart(heap, b) && r.rest == b && r.slot == slot
    requires forall x :: x in b ==> heap[x].fromMs >= slot.toMs
    ensures OverlappingDone(heap, slot, to, b, r)
  {
    hide Apart;
  }

  lemma OverlappingMore(heap: ContactMap, slot: Contact, merged: Contact, to: nat, b: seq<Ref>, r: Pass)
    requires Listed(heap, b) && b != [] && Listed(heap, r.rest) && OverlappingDone(heap, merged, to, b[1..], r)
    requires heap[b[0]].fromMs < to && merged.fromMs == slot.fromMs
    requires merged.toMs == if heap[b[0]].toMs > slot.toMs then heap[b[0]].toMs else slot.toMs
    ensures OverlappingDone(heap, slot, to, b, r)
  {
    hide Apart;
    assert b[0] in b && b == [b[0]] + b[1..];
  }

  lemma TakenAgain(heap: ContactMap, slot: Contact, to: nat, b: seq<Ref>, r: Pass, t: Pass)
    requires Listed(heap, b) && Listed(heap, r.rest) && OverlappingDone(heap, slot, to, b, r)
    requires t.rest == r.rest && t.slot == r.slot
    ensures OverlappingDone(heap, slot, to, b, t)
  {
    hide Apart;
  }

  /** What becomes of candidates that are apart at one slot. */
  predicate SlotDone(heap: ContactMap, cur: Contact, b: seq<Ref>, r: Pass)
    requires Listed(heap, b) && Listed(heap, r.placed) && Listed(heap, r.rest)
  {
    && Apart(heap, r.placed) && Apart(heap, r.rest)
    && (forall x :: x in r.placed ==> heap[x].toMs <= r.slot.fromMs && heap[x].toMs <= cur.fromMs)
    && (forall x :: x in r.rest ==> heap[x].fromMs >= r.slot.toMs)
    && (forall x :: x in b ==> x in r.placed || x in r.rest || (Overlap(heap[x], cur) && heap[x].toMs <= r.slot.toMs))
    && r.slot.toMs >= cur.toMs
    && (r.slot.toMs == cur.toMs || exists y :: y in b && Overlap(heap[y], cur) && heap[y].toMs == r.slot.toMs)
  }

  lemma SlotApart(heap: ContactMap, nodes: NodeMap, a: Ref, b: seq<Ref>, eid: string)
    requires a in heap && heap[a].fromMs < heap[a].toMs && EidOf(nodes, heap[a]) == Some(eid)
    requires Sound(heap, nodes, b, eid) && Apart(heap, b)
    ensures SlotDone(heap, heap[a], b, Slot(heap, nodes, a, b))
  {
    hide TakeEarlier, TakeOverlapping, StrictlySorted, OfNode, EidOf, Apart;
    var cur := heap[a];
    EarlierApart(heap, nodes, cur, b, eid);
    EarlierSound(heap, nodes, cur, cur.fromMs, b, eid, -1);
    var earlier := TakeEarlier(heap, nodes, cur, cur.fromMs, b);
    OverlappingApart(heap, nodes, earlier.slot, cur.toMs, earlier.rest, eid);
    forall x | x in earlier.rest ensures heap[x].fromMs < heap[x].toMs {
      var i :| 0 <= i < |earlier.rest| && earlier.rest[i] == x;
    }
  }

  lemma {:induction false} UnionWidens(heap: ContactMap, nodes: NodeMap, a: seq<Ref>, b: seq<Ref>, eid: string)
    requires Sound(heap, nodes, a, eid) && Sound(heap, nodes, b, eid) && forall x :: x in a ==> x !in b
    ensures var r := Union(heap, nodes, a, b);
      r.heap.Keys == heap.Keys && forall x :: x in heap ==> r.heap[x].fromMs <= heap[x].fromMs
    decreases a
  {
    hide StrictlySorted, NonEmptyWindows, OfNode, EidOf, Slot;
    if a != [] {
      SoundHead(heap, nodes, a, eid);
      SoundTail(heap, nodes, a, eid);
      SlotSound(heap, nodes, a[0], b, eid, -1);
      var slot := Slot(heap, nodes, a[0], b);
      var next := heap[a[0] := slot.slot];
      SoundAgree(heap, next, nodes, a[1..], eid);
      SoundAgree(heap, next, nodes, slot.rest, eid);
      UnionWidens(next, nodes, a[1..], slot.rest, eid);
    }
  }

  /** The slot now reaches into the next contact. */
  predicate ReachesNext(heap: ContactMap, a: seq<Ref>, slot: Contact)
    requires Listed(heap, a)
  {
    |a| > 1 && slot.toMs > heap[a[1]].fromMs
  }

  lemma BridgesOnward(heap: ContactMap, a: seq<Ref>, b: seq<Ref>, r: Pass, x: Ref, i: nat, j: nat)
    requires Listed(heap, a) && Listed(heap, b) && Listed(heap, r.placed) && Listed(heap, r.rest)
    requires a != [] && Apart(heap, a) && SlotDone(heap, heap[a[0]], b, r)
    requires x in b && i < j < |a| && Overlap(heap[x], heap[a[i]]) && Overlap(heap[x], heap[a[j]])
    requires NonEmptyWindows(heap, a)
    ensures ReachesNext(heap, a, r.slot) || Bridges(heap, a[1..], r.rest)
  {
    hide NonEmptyWindows;
    NextStarts(heap, a, j);
    if x in r.rest {
      if i > 0 {
        assert a[1..][i - 1] == a[i] && a[1..][j - 1] == a[j];
      } else {
        assert false;
      }
    } else {
      assert i > 0 ==> heap[a[0]].toMs <= heap[a[i]].fromMs;
    }
  }

  lemma NextStarts(heap: ContactMap, a: seq<Ref>, j: nat)
    requires Listed(heap, a) && Apart(heap, a) && NonEmptyWindows(heap, a) && 0 < j < |a|
    ensures heap[a[0]].fromMs < heap[a[0]].toMs <= heap[a[1]].fromMs <= heap[a[j]].fromMs
  {
    if j > 1 {
      assert heap[a[1]].toMs <= heap[a[j]].fromMs && heap[a[1]].fromMs < heap[a[1]].toMs;
    }
  }

  lemma BridgesHere(heap: ContactMap, a: seq<Ref>, b: seq<Ref>, r: Pass)
    requires Listed(heap, a) && Listed(heap, b) && Listed(heap, r.placed) && Listed(heap, r.rest)
    requires a != [] && Apart(heap, a) && NonEmptyWindows(heap, a)
    requires SlotDone(heap, heap[a[0]], b, r) && ReachesNext(heap, a, r.slot)
    ensures Bridges(heap, a, b)
  {
    assert heap[a[0]].toMs <= heap[a[1]].fromMs < heap[a[1]].toMs;
    var y :| y in b && Overlap(heap[y], heap[a[0]]) && heap[y].toMs == r.slot.toMs;
    assert Overlap(heap[y], heap[a[0]]) && Overlap(heap[y], heap[a[1]]);
  }

  lemma Bridge(heap: ContactMap, a: seq<Ref>, b: seq<Ref>) returns (x: Ref, i: nat, j: nat)
    requires Listed(heap, a) && Listed(heap, b) && Bridges(heap, a, b)
    ensures x in b && i < j < |a| && Overlap(heap[x], heap[a[i]]) && Overlap(heap[x], heap[a[j]])
  {
    hide Overlap;
    x, i, j :| x in b && 0 <= i < j < |a| && Overlap(heap[x], heap[a[i]]) && Overlap(heap[x], heap[a[j]]);
  }

  lemma BridgesTail(heap: ContactMap, a: seq<Ref>, b: seq<Ref>, rest: seq<Ref>)
    requires Listed(heap, a) && Listed(heap, b) && a != [] && (forall x :: x in rest ==> x in b)
    requires Bridges(heap, a[1..], rest)
    ensures Bridges(heap, a, b)
  {
    hide Overlap;
    var x, i, j := Bridge(heap, a[1..], rest);
    assert a[i + 1] == a[1..][i] && a[j + 1] == a[1..][j];
  }

  lemma BridgesStep(heap: ContactMap, a: seq<Ref>, b: seq<Ref>, r: Pass)
    requires Listed(heap, a) && Listed(heap, b) && Listed(heap, r.placed) && Listed(heap, r.rest)
    requires a != [] && Apart(heap, a) && NonEmptyWindows(heap, a)
    requires SlotDone(heap, heap[a[0]], b, r) && forall x :: x in r.rest ==> x in b
    ensures Bridges(heap, a, b) <==> ReachesNext(heap, a, r.slot) || Bridges(heap, a[1..], r.rest)
  {
    hide Apart, NonEmptyWindows, SlotDone, ReachesNext, Bridges;
    if Bridges(heap, a, b) {
      var x, i, j := Bridge(heap, a, b);
      BridgesOnward(heap, a, b, r, x, i, j);
    }
    if Bridges(heap, a[1..], r.rest) {
      BridgesTail(heap, a, b, r.rest);
    }
    if ReachesNext(heap, a, r.slot) {
      BridgesHere(heap, a, b, r);
    }
  }

  lemma JoinedApart(heap: ContactMap, placed: seq<Ref>, a: Ref, list: seq<Ref>)
    requires Listed(heap, placed) && a in heap && Listed(heap, list) && heap[a].fromMs < heap[a].toMs
    requires Apart(heap, placed) && forall x :: x in placed ==> heap[x].toMs <= heap[a].fromMs
    ensures Listed(heap, placed + [a] + list)
    ensures Apart(heap, placed + [a] + list)
            <==> Apart(heap, list) && forall y :: y in list ==> heap[a].toMs <= heap[y].fromMs
  {
    hide Apart;
    OneApart(heap, a);
    ApartConcat(heap, placed, [a]);
    ApartConcat(heap, placed + [a], list);
    if forall y :: y in list ==> heap[a].toMs <= heap[y].fromMs {
      forall u, v | u in placed + [a] && v in list ensures heap[u].toMs <= heap[v].fromMs {
      }
    }
    assert a in placed + [a];
  }

  lemma OneApart(heap: ContactMap, a: Ref)
    requires a in heap
    ensures Apart(heap, [a])
  {
  }

  /** Of two lists whose windows are apart, the union's windows are apart if and
      only if no candidate overlaps two contacts of the first list. */
  lemma {:induction false} UnionApartExactly(heap: ContactMap, nodes: NodeMap, a: seq<Ref>, b: seq<Ref>, eid: string)
    requires Sound(heap, nodes, a, eid) && Sound(heap, nodes, b, eid) && forall x :: x in a ==> x !in b
    requires Apart(heap, a) && Apart(heap, b)
    ensures var r := Union(heap, nodes, a, b);
      Listed(r.heap, r.list) && (Apart(r.heap, r.list) <==> !Bridges(heap, a, b))
    decreases a
  {
    hide StrictlySorted, NonEmptyWindows, OfNode, Slot, Apart, Bridges, ReachesNext, Agree;
    if a == [] {
      NoBridges(heap, b);
    } else {
      var slot := Slot(heap, nodes, a[0], b);
      var next := heap[a[0] := slot.slot];
      ApartStep(heap, nodes, a, b, eid);
      UnionApartExactly(next, nodes, a[1..], slot.rest, eid);
      JoinStep(heap, nodes, a, b, eid);
    }
  }

  /** One slot: what is left meets the same conditions. */
  lemma ApartStep(heap: ContactMap, nodes: NodeMap, a: seq<Ref>, b: seq<Ref>, eid: string)
    requires Sound(heap, nodes, a, eid) && Sound(heap, nodes, b, eid) && (forall x :: x in a ==> x !in b) && a != []
    requires Apart(heap, a) && Apart(heap, b)
    ensures var slot := Slot(heap, nodes, a[0], b);
      var next := heap[a[0] := slot.slot];
      && Sound(next, nodes, a[1..], eid) && Sound(next, nodes, slot.rest, eid) && Agree(heap, next, a[1..])
      && (forall x :: x in a[1..] ==> x !in slot.rest)
      && Apart(next, a[1..]) && Apart(next, slot.rest)
      && (forall x :: x in slot.rest ==> next[x].fromMs >= slot.slot.toMs)
      && (Bridges(heap, a, b) <==> ReachesNext(heap, a, slot.slot) || Bridges(next, a[1..], slot.rest))
  {
    hide StrictlySorted, NonEmptyWindows, OfNode, EidOf, Slot, Apart, Bridges, SlotDone, ReachesNext;
    SoundHead(heap, nodes, a, eid);
    SoundTail(heap, nodes, a, eid);
    ApartTail(heap, a);
    var slot := Slot(heap, nodes, a[0], b);
    SlotSound(heap, nodes, a[0], b, eid, -1);
    SlotApart(heap, nodes, a[0], b, eid);
    SlotParts(heap, heap[a[0]], b, slot);
    BridgesStep(heap, a, b, slot);
    var next := heap[a[0] := slot.slot];
    SoundAgree(heap, next, nodes, a[1..], eid);
    SoundAgree(heap, next, nodes, slot.rest, eid);
    ApartAgree(heap, next, a[1..]);
    ApartAgree(heap, next, slot.rest);
    BridgesAgree(heap, next, a[1..], slot.rest);
  }

  /** The placed candidates, the slot and the rest of the union. */
  lemma JoinStep(heap: ContactMap, nodes: NodeMap, a: seq<Ref>, b: seq<Ref>, eid: string)
    requires Sound(heap, nodes, a, eid) && Sound(heap, nodes, b, eid) && (forall x :: x in a ==> x !in b) && a != []
    requires Apart(heap, a) && Apart(heap, b)
    ensures var slot := Slot(heap, nodes, a[0], b);
      var r := Union(heap[a[0] := slot.slot], nodes, a[1..], slot.rest);
      && Listed(r.heap, slot.placed + [a[0]] + r.list) && Listed(r.heap, r.list)
      && (Apart(r.heap, slot.placed + [a[0]] + r.list)
          <==> Apart(r.heap, r.list) && !ReachesNext(heap, a, slot.slot))
  {
    hide StrictlySorted, NonEmptyWindows, OfNode, EidOf, Slot, Apart, Bridges, SlotDone, ReachesNext, Union, Agree;
    SoundHead(heap, nodes, a, eid);
    SoundTail(heap, nodes, a, eid);
    var slot := Slot(heap, nodes, a[0], b);
    SlotSound(heap, nodes, a[0], b, eid, -1);
    SlotApart(heap, nodes, a[0], b, eid);
    SlotParts(heap, heap[a[0]], b, slot);
    ApartStep(heap, nodes, a, b, eid);
    var next := heap[a[0] := slot.slot];
    UnionLists(next, nodes, a[1..], slot.rest);
    var r := Union(next, nodes, a[1..], slot.rest);
    PlacedAgree(heap, r.heap, slot.placed);
    ApartAgree(heap, r.heap, slot.placed);
    JoinedApart(r.heap, slot.placed, a[0], r.list);
    NextExactly(heap, next, nodes, a, slot, eid);
  }

  lemma PlacedAgree(heap: ContactMap, other: ContactMap, list: seq<Ref>)
    requires forall x :: x in list ==> x in heap && x in other && heap[x] == other[x]
    ensures Agree(heap, other, list)
  {
  }

  lemma NoBridges(heap: ContactMap, b: seq<Ref>)
    requires Listed(heap, b)
    ensures !Bridges(heap, [], b)
  {
  }

  lemma SlotParts(heap: ContactMap, cur: Contact, b: seq<Ref>, r: Pass)
    requires Listed(heap, b) && Listed(heap, r.placed) && Listed(heap, r.rest) && SlotDone(heap, cur, b, r)
    ensures Apart(heap, r.placed) && Apart(heap, r.rest) && r.slot.toMs >= cur.toMs
    ensures forall x :: x in r.placed ==> heap[x].toMs <= r.slot.fromMs
    ensures forall x :: x in r.rest ==> heap[x].fromMs >= r.slot.toMs
  {
  }

  lemma BridgesAgree(heap: ContactMap, other: ContactMap, a: seq<Ref>, b: seq<Ref>)
    requires Listed(heap, a) && Listed(heap, b) && Agree(heap, other, a) && Agree(heap, other, b)
    requires Listed(other, a) && Listed(other, b)
    ensures Bridges(heap, a, b) <==> Bridges(other, a, b)
  {
    assert forall x :: x in b ==> heap[x] == other[x];
  }

  /** The rest of the union begins after the slot if and only if the slot does not
      reach the next contact. */
  lemma NextExactly(heap: ContactMap, next: ContactMap, nodes: NodeMap, a: seq<Ref>, slot: Pass, eid: string)
    requires Listed(heap, a) && a != [] && Listed(heap, slot.rest) && Agree(heap, next, a[1..])
    requires Sound(next, nodes, a[1..], eid) && Sound(next, nodes, slot.rest, eid)
    requires forall x :: x in a[1..] ==> x !in slot.rest
    requires forall x :: x in slot.rest ==> next[x].fromMs >= slot.slot.toMs
    ensures var r := Union(next, nodes, a[1..], slot.rest);
      && Listed(r.heap, r.list)
      && ((forall y :: y in r.list ==> slot.slot.toMs <= r.heap[y].fromMs) <==> !ReachesNext(heap, a, slot.slot))
  {
    hide NonEmptyWindows, OfNode, EidOf, Union;
    var tail := a[1..];
    UnionLists(next, nodes, tail, slot.rest);
    if ReachesNext(heap, a, slot.slot) {
      UnionWidens(next, nodes, tail, slot.rest, eid);
      assert tail[0] == a[1] && tail[0] in tail;
    } else {
      forall x | x in tail ensures slot.slot.toMs <= next[x].fromMs {
        var i :| 0 <= i < |tail| && tail[i] == x;
        assert tail[0] == a[1] && next[tail[0]].fromMs <= next[tail[i]].fromMs;
      }
      UnionSound(next, nodes, tail, slot.rest, eid, slot.slot.toMs - 1);
    }
  }

  /** Such lists: [0, 10) and [20, 30) with [5, 25). */
  lemma UnionOverlaps(nodes: NodeMap, c: Contact)
    requires EidOf(nodes, c).Some?
    ensures var heap := map[1 := c.(fromMs := 0, toMs := 10), 2 := c.(fromMs := 20, toMs := 30),
                            3 := c.(fromMs := 5, toMs := 25)];
      && Apart(heap, [1, 2]) && Apart(heap, [3])
      && Listed(Union(heap, nodes, [1, 2], [3]).heap, Union(heap, nodes, [1, 2], [3]).list)
      && !Apart(Union(heap, nodes, [1, 2], [3]).heap, Union(heap, nodes, [1, 2], [3]).list)
  {
    hide Union;
    var heap := map[1 := c.(fromMs := 0, toMs := 10), 2 := c.(fromMs := 20, toMs := 30),
                    3 := c.(fromMs := 5, toMs := 25)];
    var eid := EidOf(nodes, c).value;
    assert Sound(heap, nodes, [1, 2], eid) && Sound(heap, nodes, [3], eid);
    UnionApartExactly(heap, nodes, [1, 2], [3], eid);
    assert 3 in [3] && Overlap(heap[3], heap[[1, 2][0]]) && Overlap(heap[3], heap[[1, 2][1]]);
  }

  // ---- Windows of configuration commands

  /** A window as the parser of configuration commands accepts it. */
  predicate InPlan(c: Contact) {
    c.fromMs <= c.toMs && c.toMs + 500 < TWO_64 && c.bitrate < TWO_32
  }

  /** Of such contacts exactly those of INT32_MAX octets or more count as infinite. */
  lemma InfiniteInPlan(c: Contact)
    requires InPlan(c)
    ensures CountsAsInfinite(c) <==> Capacity.TrueProduct(c) >= INT32_MAX
  {
    hide CountsAsInfinite;
    Capacity.InfiniteExactly(c);
  }

  /** So it is for every contact of every command the parser hands over, whatever
      it was sent. */
  lemma AcceptedCountsExactly(s: string, k: nat, i: nat, c: Contact)
    requires var sent := ConfigRoundTrip.Run(Config.START, s).sent;
      && k < |sent| && i < |sent[k].contacts|
      && c.fromMs == sent[k].contacts[i].fromMs <= c.toMs == sent[k].contacts[i].toMs
      && c.bitrate == sent[k].contacts[i].bitrate
    ensures CountsAsInfinite(c) <==> Capacity.TrueProduct(c) >= INT32_MAX
  {
    hide ConfigRoundTrip.Run, CountsAsInfinite;
    ConfigRoundTrip.AcceptedWindows(Config.START, s);
    InfiniteInPlan(c);
  }

  lemma MergeInPlan(held: Contact, candidate: Contact)
    requires InPlan(held) && InPlan(candidate)
    ensures InPlan(Merge(held, candidate).0)
  {
    hide EndpointList.Union, CountsAsInfinite, WrappedProduct, ToInt32;
  }

  lemma {:induction false} EarlierInPlan(heap: ContactMap, nodes: NodeMap, slot: Contact, from: nat, b: seq<Ref>)
    requires Listed(heap, b) && InPlan(slot) && forall x :: x in b ==> InPlan(heap[x])
    ensures InPlan(TakeEarlier(heap, nodes, slot, from, b).slot)
    decreases b
  {
    hide Merge, SameNode, Overlap, InPlan;
    if b != [] && heap[b[0]].fromMs <= from {
      assert b[0] in b;
      MergeInPlan(slot, heap[b[0]]);
      EarlierInPlan(heap, nodes, Merge(slot, heap[b[0]]).0, from, b[1..]);
      EarlierInPlan(heap, nodes, slot, from, b[1..]);
    }
  }

  lemma {:induction false} OverlappingInPlan(heap: ContactMap, nodes: NodeMap, slot: Contact, to: nat, b: seq<Ref>)
    requires Listed(heap, b) && InPlan(slot) && forall x :: x in b ==> InPlan(heap[x])
    ensures InPlan(TakeOverlapping(heap, nodes, slot, to, b).slot)
    decreases b
  {
    hide Merge, SameNode, InPlan;
    if b != [] {
      assert b[0] in b;
      MergeInPlan(slot, heap[b[0]]);
      OverlappingInPlan(heap, nodes, Merge(slot, heap[b[0]]).0, to, b[1..]);
      OverlappingInPlan(heap, nodes, slot, to, b[1..]);
    }
  }

  /** Merging lists of such contacts makes such contacts. */
  lemma {:induction false} UnionInPlan(heap: ContactMap, nodes: NodeMap, a: seq<Ref>, b: seq<Ref>)
    requires Listed(heap, a) && Listed(heap, b)
    requires forall x :: x in a || x in b ==> InPlan(heap[x])
    ensures var r := Union(heap, nodes, a, b);
      Listed(r.heap, r.list) && forall x :: x in r.list ==> InPlan(r.heap[x])
    decreases a
  {
    hide TakeEarlier, TakeOverlapping, InPlan;
    UnionLists(heap, nodes, a, b);
    if a != [] {
      var cur := heap[a[0]];
      var earlier := TakeEarlier(heap, nodes, cur, cur.fromMs, b);
      assert a[0] in a;
      EarlierInPlan(heap, nodes, cur, cur.fromMs, b);
      OverlappingInPlan(heap, nodes, earlier.slot, cur.toMs, earlier.rest);
      var slot := Slot(heap, nodes, a[0], b);
      var next := heap[a[0] := slot.slot];
      assert a == [a[0]] + a[1..];
      UnionInPlan(next, nodes, a[1..], slot.rest);
      UnionLists(next, nodes, a[1..], slot.rest);
      forall x | x in slot.placed ensures InPlan(Union(heap, nodes, a, b).heap[x]) {
        assert x in b;
      }
    }
  }

  // ---- Overbooking

  /** A contact of 2000 octets with a bundle of 1500. */
  const BOOKED := Contact(Some(1), 0, 1_000_000, 2, 2000, 500, 2000, 2000, [], [Queued(7, 1500, 0)], false)

  const HALVED := BOOKED.(bitrate := 1, total := 1000, p0 := -500, p1 := 1000, p2 := 1000)

  /** Merging it with the same window at half the rate overbooks it, and then it has
      room for everything. */
  lemma MergeOverbooks()
    ensures Capacity.Accounted(BOOKED) && Capacity.Accounted(HALVED)
    ensures Merge(BOOKED, BOOKED.(bitrate := 1, bundles := [])).0 == HALVED
    ensures Capacity.FitsIn(HALVED, 1_000_000, 0, 1) && 1_000_000 > HALVED.p0
  {
    hide *;
    BothAccounted();
    BookedFields();
    SameWindowMerged(BOOKED, 1);
    HalvedRecalculated();
    HalvedFits();
  }

  lemma SameWindowMerged(held: Contact, rate: nat)
    requires held.endpoints == [] && rate != held.bitrate
    ensures Merge(held, held.(bitrate := rate, bundles := [])).0 == Recalculate(held.(bitrate := rate))
  {
    hide Recalculate, EndpointList.Union;
    NothingJoined();
  }

  lemma BookedFields()
    ensures BOOKED.endpoints == [] && BOOKED.bitrate == 2
  {
  }

  lemma BothAccounted()
    ensures Capacity.Accounted(BOOKED) && Capacity.Accounted(HALVED)
  {
    hide Capacity.Accounted;
    OneAccounted(BOOKED, Queued(7, 1500, 0));
    OneAccounted(HALVED, Queued(7, 1500, 0));
  }

  lemma OneAccounted(c: Contact, b: Queued)
    requires c.bundles == [b] && b.priority == 0 && b.size <= 0x8000_0000 && c.total < INT32_MAX
    requires c.p0 == c.total - b.size && c.p1 == c.total && c.p2 == c.total
    ensures Capacity.Accounted(c)
  {
    hide Capacity.QueuedSize;
    assert c.bundles == [] + [b];
    Capacity.QueuedSizeAdd([], b, 0);
    Capacity.QueuedSizeAdd([], b, 1);
    Capacity.QueuedSizeAdd([], b, 2);
    NothingQueued();
  }

  lemma NothingQueued()
    ensures forall k: nat :: Capacity.QueuedSize([], k) == 0
  {
  }

  lemma NothingJoined()
    ensures EndpointList.Union([], []) == []
  {
  }

  lemma HalvedProduct(c: Contact)
    requires c.fromMs == 0 && c.toMs == 1_000_000 && c.bitrate == 1
    ensures WrappedProduct(c) == 1000 && !CountsAsInfinite(c)
  {
    assert DurationS(c) == 1000;
  }

  lemma HalvedRecalculated()
    ensures Recalculate(BOOKED.(bitrate := 1)) == HALVED
  {
    hide ToInt32, WrappedProduct, CountsAsInfinite;
    HalvedProduct(BOOKED.(bitrate := 1));
    Capacity.ToInt32Fits(2000);
    Capacity.ToInt32Fits(-1000);
    Capacity.ToInt32Fits(1000);
    Capacity.ToInt32Fits(-500);
  }

  lemma HalvedFits()
    ensures Capacity.FitsIn(HALVED, 1_000_000, 0, 1) && 1_000_000 > HALVED.p0
  {
    assert Remaining(HALVED, 0, 0) == -500;
  }
}
