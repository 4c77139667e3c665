/** `contact_list_union` of components/ud3tn/node.c: merges a sorted list of
    contacts into another, joining windows that overlap. */
module ContactUnion {
  import opened Octets
  import opened Contacts
  import EndpointList

  type ContactMap = map<Ref, Contact>
  type NodeMap = map<Ref, Node>

  predicate Listed(heap: ContactMap, list: seq<Ref>) {
    forall x :: x in list ==> x in heap
  }

  predicate StrictlySorted(heap: ContactMap, list: seq<Ref>)
    requires Listed(heap, list)
  {
    forall i, j :: 0 <= i < j < |list| ==> heap[list[i]].fromMs < heap[list[j]].fromMs
  }

  predicate NonEmptyWindows(heap: ContactMap, list: seq<Ref>)
    requires Listed(heap, list)
  {
    forall i :: 0 <= i < |list| ==> heap[list[i]].fromMs < heap[list[i]].toMs
  }

  /** What a list of contacts is asked: is one open at this time, does one reach
      this endpoint? */
  datatype Query = OpenAt(t: nat) | Reaching(eid: string)

  predicate Holds(c: Contact, q: Query) {
    match q
    case OpenAt(t) => c.fromMs <= t < c.toMs
    case Reaching(eid) => eid in EndpointList.Names(c.endpoints)
  }

  ghost predicate Covers(heap: ContactMap, list: seq<Ref>, q: Query)
    requires Listed(heap, list)
  {
    exists i :: 0 <= i < |list| && Holds(heap[list[i]], q)
  }

  function EidOf(nodes: NodeMap, c: Contact): Option<string> {
    if c.node.Some? && c.node.value in nodes then Some(nodes[c.node.value].eid) else None
  }

  predicate SameNode(nodes: NodeMap, a: Contact, b: Contact) {
    EidOf(nodes, a).Some? && EidOf(nodes, a) == EidOf(nodes, b)
  }

  predicate OfNode(heap: ContactMap, nodes: NodeMap, list: seq<Ref>, eid: string)
    requires Listed(heap, list)
  {
    forall i :: 0 <= i < |list| ==> EidOf(nodes, heap[list[i]]) == Some(eid)
  }

  // ---- The algorithm

  /** `merge_contacts`, and whether the capacity changed. */
  function Merge(held: Contact, candidate: Contact): (Contact, bool) {
    var merged := held.(fromMs := if candidate.fromMs < held.fromMs then candidate.fromMs else held.fromMs,
                       toMs := if candidate.toMs > held.toMs then candidate.toMs else held.toMs,
                       endpoints := EndpointList.Union(held.endpoints, candidate.endpoints));
    if held.bitrate != candidate.bitrate || merged.toMs - merged.fromMs != held.toMs - held.fromMs then
      (Recalculate(merged.(bitrate := candidate.bitrate)), true)
    else (merged, false)
  }

  /** Candidates placed before the slot, the slot, candidates left over, and how
      many merges changed the slot's capacity. */
  datatype Pass = Pass(placed: seq<Ref>, slot: Contact, rest: seq<Ref>, modified: nat)

  /** Candidates that start no later than the slot go before it, or into it. */
  function TakeEarlier(heap: ContactMap, nodes: NodeMap, slot: Contact, from: nat, b: seq<Ref>): (r: Pass)
    requires Listed(heap, b)
    ensures forall x :: x in r.placed ==> x in b
    ensures forall x :: x in r.rest ==> x in b
    decreases b
  {
    if b == [] || heap[b[0]].fromMs > from then Pass([], slot, b, 0)
    else if SameNode(nodes, heap[b[0]], slot) && Overlap(heap[b[0]], slot) then
      var (merged, changed) := Merge(slot, heap[b[0]]);
      var r := TakeEarlier(heap, nodes, merged, from, b[1..]);
      r.(modified := r.modified + if changed then 1 else 0)
    else
      var r := TakeEarlier(heap, nodes, slot, from, b[1..]);
      r.(placed := [b[0]] + r.placed)
  }

  /** Of the others, those that start before the slot's end go into it. */
  function TakeOverlapping(heap: ContactMap, nodes: NodeMap, slot: Contact, to: nat, b: seq<Ref>): (r: Pass)
    requires Listed(heap, b)
    ensures r.placed == []
    ensures forall x :: x in r.rest ==> x in b
    decreases b
  {
    if b == [] then Pass([], slot, [], 0)
    else if heap[b[0]].fromMs < to && SameNode(nodes, heap[b[0]], slot) then
      var (merged, changed) := Merge(slot, heap[b[0]]);
      var r := TakeOverlapping(heap, nodes, merged, to, b[1..]);
      r.(modified := r.modified + if changed then 1 else 0)
    else
      var r := TakeOverlapping(heap, nodes, slot, to, b[1..]);
      r.(rest := [b[0]] + r.rest)
  }

  datatype Result = Result(list: seq<Ref>, heap: ContactMap, modified: seq<Ref>)

  /** Both passes for one slot. */
  function Slot(heap: ContactMap, nodes: NodeMap, a: Ref, b: seq<Ref>): (r: Pass)
    requires a in heap && Listed(heap, b)
    ensures forall x :: x in r.placed ==> x in b
    ensures forall x :: x in r.rest ==> x in b
  {
    var cur := heap[a];
    var earlier := TakeEarlier(heap, nodes, cur, cur.fromMs, b);
    var overlapping := TakeOverlapping(heap, nodes, earlier.slot, cur.toMs, earlier.rest);
    Pass(earlier.placed, overlapping.slot, overlapping.rest, earlier.modified + overlapping.modified)
  }

  function Repeat(x: Ref, n: nat): seq<Ref> {
    seq(n, i => x)
  }

  function Union(heap: ContactMap, nodes: NodeMap, a: seq<Ref>, b: seq<Ref>): Result
    requires Listed(heap, a) && Listed(heap, b)
    decreases a
  {
    if a == [] then Result(b, heap, [])
    else
      var slot := Slot(heap, nodes, a[0], b);
      var r := Union(heap[a[0] := slot.slot], nodes, a[1..], slot.rest);
      Result(slot.placed + [a[0]] + r.list, r.heap, r.modified + Repeat(a[0], slot.modified))
  }

  // ---- Coverage of lists

  lemma CoversConcat(heap: ContactMap, x: seq<Ref>, y: seq<Ref>, q: Query)
    requires Listed(heap, x) && Listed(heap, y)
    ensures Listed(heap, x + y)
    ensures Covers(heap, x + y, q) <==> Covers(heap, x, q) || Covers(heap, y, q)
  {
    if Covers(heap, x, q) {
      var i :| 0 <= i < |x| && Holds(heap[x[i]], q);
      assert Holds(heap[(x + y)[i]], q);
    }
    if Covers(heap, y, q) {
      var i :| 0 <= i < |y| && Holds(heap[y[i]], q);
      assert Holds(heap[(x + y)[|x| + i]], q);
    }
    if Covers(heap, x + y, q) {
      var i :| 0 <= i < |x + y| && Holds(heap[(x + y)[i]], q);
      if i < |x| {
        assert Holds(heap[x[i]], q);
      } else {
        assert Holds(heap[y[i - |x|]], q);
      }
    }
  }

  lemma CoversFront(heap: ContactMap, b: seq<Ref>, q: Query)
    requires Listed(heap, b) && b != []
    ensures Covers(heap, b, q) <==> Holds(heap[b[0]], q) || Covers(heap, b[1..], q)
  {
    hide Covers;
    assert b == [b[0]] + b[1..];
    CoversConcat(heap, [b[0]], b[1..], q);
    CoversOne(heap, b[0], q);
  }

  lemma CoversOne(heap: ContactMap, x: Ref, q: Query)
    requires x in heap
    ensures Covers(heap, [x], q) <==> Holds(heap[x], q)
  {
    if Holds(heap[x], q) {
      assert Holds(heap[[x][0]], q);
    }
  }

  /** Two heaps that agree on the listed contacts. */
  predicate Agree(heap: ContactMap, other: ContactMap, list: seq<Ref>) {
    forall i :: 0 <= i < |list| ==> list[i] in heap && list[i] in other && heap[list[i]] == other[list[i]]
  }

  lemma CoversAgree(heap: ContactMap, other: ContactMap, list: seq<Ref>, q: Query)
    requires Agree(heap, other, list)
    ensures Covers(heap, list, q) <==> Covers(other, list, q)
  {
    if Covers(heap, list, q) {
      var i :| 0 <= i < |list| && Holds(heap[list[i]], q);
      assert Holds(other[list[i]], q);
    }
    if Covers(other, list, q) {
      var i :| 0 <= i < |list| && Holds(other[list[i]], q);
      assert Holds(heap[list[i]], q);
    }
  }

  // ---- Merging

  /** Merging overlapping windows covers exactly both, and reaches exactly the
      endpoints of both. */
  lemma MergeCovers(held: Contact, candidate: Contact, q: Query)
    requires Overlap(held, candidate)
    ensures Holds(Merge(held, candidate).0, q) <==> Holds(held, q) || Holds(candidate, q)
  {
    hide EndpointList.Union, EndpointList.Names;
    EndpointList.UnionMeans(held.endpoints, candidate.endpoints);
  }

  lemma MergeKeeps(nodes: NodeMap, held: Contact, candidate: Contact)
    ensures var m := Merge(held, candidate).0;
      && m.fromMs == (if candidate.fromMs < held.fromMs then candidate.fromMs else held.fromMs)
      && m.toMs == (if candidate.toMs > held.toMs then candidate.toMs else held.toMs)
      && EidOf(nodes, m) == EidOf(nodes, held)
      && m.node == held.node
      && m.endpoints == EndpointList.Union(held.endpoints, candidate.endpoints)
  {
    hide EndpointList.Union;
  }

  // ---- One slot

  predicate Sound(heap: ContactMap, nodes: NodeMap, list: seq<Ref>, eid: string) {
    && Listed(heap, list)
    && StrictlySorted(heap, list)
    && NonEmptyWindows(heap, list)
    && OfNode(heap, nodes, list, eid)
  }

  lemma SoundTail(heap: ContactMap, nodes: NodeMap, b: seq<Ref>, eid: string)
    requires Sound(heap, nodes, b, eid) && b != []
    ensures Sound(heap, nodes, b[1..], eid)
    ensures forall x :: x in b[1..] ==> x in heap && heap[x].fromMs > heap[b[0]].fromMs
  {
    assert forall i :: 0 <= i < |b[1..]| ==> b[1..][i] == b[i + 1];
  }

  lemma SoundCons(heap: ContactMap, nodes: NodeMap, x: Ref, list: seq<Ref>, eid: string)
    requires Sound(heap, nodes, list, eid)
    requires x in heap && heap[x].fromMs < heap[x].toMs && EidOf(nodes, heap[x]) == Some(eid)
    requires forall y :: y in list ==> heap[x].fromMs < heap[y].fromMs
    ensures Sound(heap, nodes, [x] + list, eid)
  {
    assert forall i :: 0 < i < |[x] + list| ==> ([x] + list)[i] == list[i - 1] && list[i - 1] in list;
  }

  /** The slot holds its start, and nothing is left between its start and the
      point up to which candidates are taken. */
  predicate SlotOpen(heap: ContactMap, nodes: NodeMap, slot: Contact, from: nat, b: seq<Ref>, eid: string)
    requires Listed(heap, b)
  {
    && slot.fromMs <= from < slot.toMs
    && EidOf(nodes, slot) == Some(eid)
    && (slot.fromMs == from || forall x :: x in b ==> heap[x].fromMs > slot.fromMs)
  }

  lemma {:induction false} EarlierSound(heap: ContactMap, nodes: NodeMap, slot: Contact, from: nat, b: seq<Ref>,
                                        eid: string, bound: int)
    requires Sound(heap, nodes, b, eid) && SlotOpen(heap, nodes, slot, from, b, eid)
    requires bound < slot.fromMs && forall x :: x in b ==> bound < heap[x].fromMs
    ensures var r := TakeEarlier(heap, nodes, slot, from, b);
      && Sound(heap, nodes, r.placed, eid)
      && (forall x :: x in r.placed ==> bound < heap[x].fromMs < r.slot.fromMs)
      && (slot.fromMs < from ==> r.placed == [])
      && Sound(heap, nodes, r.rest, eid)
      && (forall x :: x in r.rest ==> heap[x].fromMs > from)
      && bound < r.slot.fromMs <= from && r.slot.toMs >= slot.toMs && EidOf(nodes, r.slot) == Some(eid)
    decreases b
  {
    hide StrictlySorted, NonEmptyWindows, OfNode, Merge, EidOf;
    if b == [] {
      EmptySound(heap, nodes, eid);
    } else if heap[b[0]].fromMs > from {
      EmptySound(heap, nodes, eid);
      SoundTail(heap, nodes, b, eid);
    } else {
      SoundTail(heap, nodes, b, eid);
      SoundHead(heap, nodes, b, eid);
      if Overlap(heap[b[0]], slot) {
        MergeKeeps(nodes, slot, heap[b[0]]);
        EarlierSound(heap, nodes, Merge(slot, heap[b[0]]).0, from, b[1..], eid, bound);
      } else {
        EarlierSound(heap, nodes, slot, from, b[1..], eid, heap[b[0]].fromMs);
        SoundCons(heap, nodes, b[0], TakeEarlier(heap, nodes, slot, from, b[1..]).placed, eid);
      }
    }
  }

  lemma EmptySound(heap: ContactMap, nodes: NodeMap, eid: string)
    ensures Sound(heap, nodes, [], eid)
  {
  }

  lemma SoundHead(heap: ContactMap, nodes: NodeMap, b: seq<Ref>, eid: string)
    requires Sound(heap, nodes, b, eid) && b != []
    ensures b[0] in heap && heap[b[0]].fromMs < heap[b[0]].toMs && EidOf(nodes, heap[b[0]]) == Some(eid)
  {
  }

  lemma {:induction false} EarlierCovers(heap: ContactMap, nodes: NodeMap, slot: Contact, from: nat, b: seq<Ref>,
                                         eid: string, q: Query)
    requires Sound(heap, nodes, b, eid) && SlotOpen(heap, nodes, slot, from, b, eid)
    ensures var r := TakeEarlier(heap, nodes, slot, from, b);
      Holds(slot, q) || Covers(heap, b, q) <==> Covers(heap, r.placed, q) || Holds(r.slot, q) || Covers(heap, r.rest, q)
    decreases b
  {
    hide StrictlySorted, NonEmptyWindows, OfNode, Merge, EidOf, Covers, Holds;
    CoversNothing(heap, q);
    if b != [] && heap[b[0]].fromMs <= from {
      SoundTail(heap, nodes, b, eid);
      SoundHead(heap, nodes, b, eid);
      CoversFront(heap, b, q);
      if Overlap(heap[b[0]], slot) {
        MergeKeeps(nodes, slot, heap[b[0]]);
        MergeCovers(slot, heap[b[0]], q);
        EarlierCovers(heap, nodes, Merge(slot, heap[b[0]]).0, from, b[1..], eid, q);
      } else {
        EarlierCovers(heap, nodes, slot, from, b[1..], eid, q);
        var r := TakeEarlier(heap, nodes, slot, from, b);
        assert r.placed[1..] == TakeEarlier(heap, nodes, slot, from, b[1..]).placed;
        CoversFront(heap, r.placed, q);
      }
    }
  }

  lemma CoversNothing(heap: ContactMap, q: Query)
    ensures !Covers(heap, [], q)
  {
  }

  /** The slot reaches from before `from` to `to` or later; only candidates that
      start after `from` are left. */
  predicate SlotFilled(heap: ContactMap, nodes: NodeMap, slot: Contact, from: nat, to: nat, b: seq<Ref>, eid: string)
    requires Listed(heap, b)
  {
    && slot.fromMs <= from < to <= slot.toMs
    && EidOf(nodes, slot) == Some(eid)
    && forall x :: x in b ==> heap[x].fromMs > from
  }

  lemma {:induction false} OverlappingSound(heap: ContactMap, nodes: NodeMap, slot: Contact, from: nat, to: nat,
                                            b: seq<Ref>, eid: string)
    requires Sound(heap, nodes, b, eid) && SlotFilled(heap, nodes, slot, from, to, b, eid)
    ensures var r := TakeOverlapping(heap, nodes, slot, to, b);
      && Sound(heap, nodes, r.rest, eid)
      && (forall x :: x in r.rest ==> heap[x].fromMs >= to)
      && r.slot.fromMs == slot.fromMs && r.slot.toMs >= slot.toMs && EidOf(nodes, r.slot) == Some(eid)
    decreases b
  {
    hide StrictlySorted, NonEmptyWindows, OfNode, Merge, EidOf;
    if b == [] {
      EmptySound(heap, nodes, eid);
    } else {
      SoundTail(heap, nodes, b, eid);
      SoundHead(heap, nodes, b, eid);
      if heap[b[0]].fromMs < to {
        MergeKeeps(nodes, slot, heap[b[0]]);
        OverlappingSound(heap, nodes, Merge(slot, heap[b[0]]).0, from, to, b[1..], eid);
      } else {
        OverlappingSound(heap, nodes, slot, from, to, b[1..], eid);
        SoundCons(heap, nodes, b[0], TakeOverlapping(heap, nodes, slot, to, b[1..]).rest, eid);
      }
    }
  }

  lemma {:induction false} OverlappingCovers(heap: ContactMap, nodes: NodeMap, slot: Contact, from: nat, to: nat,
                                             b: seq<Ref>, eid: string, q: Query)
    requires Sound(heap, nodes, b, eid) && SlotFilled(heap, nodes, slot, from, to, b, eid)
    ensures var r := TakeOverlapping(heap, nodes, slot, to, b);
      Holds(slot, q) || Covers(heap, b, q) <==> Holds(r.slot, q) || Covers(heap, r.rest, q)
    decreases b
  {
    hide StrictlySorted, NonEmptyWindows, OfNode, Merge, EidOf, Covers, Holds;
    if b != [] {
      SoundTail(heap, nodes, b, eid);
      SoundHead(heap, nodes, b, eid);
      CoversFront(heap, b, q);
      if heap[b[0]].fromMs < to {
        MergeKeeps(nodes, slot, heap[b[0]]);
        MergeCovers(slot, heap[b[0]], q);
        OverlappingCovers(heap, nodes, Merge(slot, heap[b[0]]).0, from, to, b[1..], eid, q);
      } else {
        OverlappingCovers(heap, nodes, slot, from, to, b[1..], eid, q);
        var r := TakeOverlapping(heap, nodes, slot, to, b);
        assert r.rest[1..] == TakeOverlapping(heap, nodes, slot, to, b[1..]).rest;
        CoversFront(heap, r.rest, q);
      }
    }
  }

  lemma SlotSound(heap: ContactMap, nodes: NodeMap, a: Ref, b: seq<Ref>, eid: string, bound: int)
    requires a in heap && heap[a].fromMs < heap[a].toMs && EidOf(nodes, heap[a]) == Some(eid)
    requires Sound(heap, nodes, b, eid)
    requires bound < heap[a].fromMs && forall x :: x in b ==> bound < heap[x].fromMs
    ensures var r := Slot(heap, nodes, a, b);
      && Sound(heap, nodes, r.placed, eid) && Sound(heap, nodes, r.rest, eid)
      && (forall x :: x in r.placed ==> bound < heap[x].fromMs < r.slot.fromMs)
      && (forall x :: x in r.rest ==> heap[x].fromMs >= heap[a].toMs)
      && bound < r.slot.fromMs <= heap[a].fromMs && r.slot.toMs >= heap[a].toMs && EidOf(nodes, r.slot) == Some(eid)
  {
    hide StrictlySorted, NonEmptyWindows, OfNode, EidOf, TakeEarlier, TakeOverlapping;
    var cur := heap[a];
    EarlierSound(heap, nodes, cur, cur.fromMs, b, eid, bound);
    var earlier := TakeEarlier(heap, nodes, cur, cur.fromMs, b);
    OverlappingSound(heap, nodes, earlier.slot, cur.fromMs, cur.toMs, earlier.rest, eid);
  }

  lemma SlotCovers(heap: ContactMap, nodes: NodeMap, a: Ref, b: seq<Ref>, eid: string, q: Query)
    requires a in heap && heap[a].fromMs < heap[a].toMs && EidOf(nodes, heap[a]) == Some(eid)
    requires Sound(heap, nodes, b, eid)
    ensures var r := Slot(heap, nodes, a, b);
      Holds(heap[a], q) || Covers(heap, b, q)
      <==> Covers(heap, r.placed, q) || Holds(r.slot, q) || Covers(heap, r.rest, q)
  {
    hide StrictlySorted, NonEmptyWindows, OfNode, EidOf, TakeEarlier, TakeOverlapping, Covers, Holds;
    var cur := heap[a];
    EarlierSound(heap, nodes, cur, cur.fromMs, b, eid, -1);
    EarlierCovers(heap, nodes, cur, cur.fromMs, b, eid, q);
    var earlier := TakeEarlier(heap, nodes, cur, cur.fromMs, b);
    OverlappingCovers(heap, nodes, earlier.slot, cur.fromMs, cur.toMs, earlier.rest, eid, q);
  }

  // ---- The whole union

  lemma SoundAgree(heap: ContactMap, other: ContactMap, nodes: NodeMap, list: seq<Ref>, eid: string)
    requires Sound(heap, nodes, list, eid) && Agree(heap, other, list)
    ensures Sound(other, nodes, list, eid)
  {
  }

  lemma SoundConcat(heap: ContactMap, nodes: NodeMap, x: seq<Ref>, y: seq<Ref>, eid: string)
    requires Sound(heap, nodes, x, eid) && Sound(heap, nodes, y, eid)
    requires forall u, v :: u in x && v in y ==> heap[u].fromMs < heap[v].fromMs
    ensures Sound(heap, nodes, x + y, eid)
  {
    var r := x + y;
    assert forall i :: 0 <= i < |x| ==> r[i] == x[i] && x[i] in x;
    assert forall i :: |x| <= i < |r| ==> r[i] == y[i - |x|] && y[i - |x|] in y;
  }

  lemma SoundJoined(heap: ContactMap, nodes: NodeMap, x: seq<Ref>, a: Ref, y: seq<Ref>, eid: string)
    requires Sound(heap, nodes, x, eid) && Sound(heap, nodes, y, eid)
    requires a in heap && heap[a].fromMs < heap[a].toMs && EidOf(nodes, heap[a]) == Some(eid)
    requires forall u :: u in x ==> heap[u].fromMs < heap[a].fromMs
    requires forall v :: v in y ==> heap[a].fromMs < heap[v].fromMs
    ensures Sound(heap, nodes, x + [a] + y, eid)
  {
    hide StrictlySorted, NonEmptyWindows, OfNode, EidOf;
    SoundCons(heap, nodes, a, y, eid);
    SoundConcat(heap, nodes, x, [a] + y, eid);
    assert x + ([a] + y) == x + [a] + y;
  }

  /** The union changes no contact outside the first list, which it keeps; all
      it lists is from either list. */
  lemma {:induction false} UnionLists(heap: ContactMap, nodes: NodeMap, a: seq<Ref>, b: seq<Ref>)
    requires Listed(heap, a) && Listed(heap, b)
    ensures var r := Union(heap, nodes, a, b);
      && r.heap.Keys == heap.Keys
      && (forall x :: x in heap && x !in a ==> r.heap[x] == heap[x])
      && (forall x :: x in a ==> x in r.list)
      && (forall x :: x in r.list ==> x in a || x in b)
      && Listed(r.heap, r.list)
      && (forall x :: x in r.modified ==> x in a)
    decreases a
  {
    hide Slot;
    if a != [] {
      var slot := Slot(heap, nodes, a[0], b);
      UnionLists(heap[a[0] := slot.slot], nodes, a[1..], slot.rest);
      assert a == [a[0]] + a[1..];
    }
  }

  /** `contact_list_union` of two lists of one node, strictly sorted by start,
      is strictly sorted by start again. */
  lemma {:induction false} UnionSound(heap: ContactMap, nodes: NodeMap, a: seq<Ref>, b: seq<Ref>, eid: string,
                                      bound: int)
    requires Sound(heap, nodes, a, eid) && Sound(heap, nodes, b, eid)
    requires forall x :: x in a ==> x !in b
    requires forall x :: x in a || x in b ==> bound < heap[x].fromMs
    ensures var r := Union(heap, nodes, a, b);
      && Sound(r.heap, nodes, r.list, eid)
      && forall x :: x in r.list ==> bound < r.heap[x].fromMs
    decreases a
  {
    hide StrictlySorted, NonEmptyWindows, OfNode, EidOf, Slot;
    if a != [] {
      SoundHead(heap, nodes, a, eid);
      SoundTail(heap, nodes, a, eid);
      var cur, slot := heap[a[0]], Slot(heap, nodes, a[0], b);
      SlotSound(heap, nodes, a[0], b, eid, bound);
      var next := heap[a[0] := slot.slot];
      SoundAgree(heap, next, nodes, a[1..], eid);
      SoundAgree(heap, next, nodes, slot.rest, eid);
      UnionSound(next, nodes, a[1..], slot.rest, eid, cur.fromMs);
      UnionLists(next, nodes, a[1..], slot.rest);
      var r := Union(next, nodes, a[1..], slot.rest);
      SoundAgree(heap, r.heap, nodes, slot.placed, eid);
      SoundJoined(r.heap, nodes, slot.placed, a[0], r.list, eid);
    }
  }

  /** It is open exactly when one of the two is, and reaches exactly the
      endpoints that they reach. */
  lemma {:induction false} UnionCovers(heap: ContactMap, nodes: NodeMap, a: seq<Ref>, b: seq<Ref>, eid: string,
                                       q: Query)
    requires Sound(heap, nodes, a, eid) && Sound(heap, nodes, b, eid)
    requires forall x :: x in a ==> x !in b
    ensures var r := Union(heap, nodes, a, b);
      Listed(r.heap, r.list) && (Covers(r.heap, r.list, q) <==> Covers(heap, a, q) || Covers(heap, b, q))
    decreases a
  {
    hide StrictlySorted, NonEmptyWindows, OfNode, EidOf, Slot, Covers, Holds;
    CoversNothing(heap, q);
    if a != [] {
      SoundHead(heap, nodes, a, eid);
      SoundTail(heap, nodes, a, eid);
      var cur, slot := heap[a[0]], Slot(heap, nodes, a[0], b);
      SlotSound(heap, nodes, a[0], b, eid, -1);
      SlotCovers(heap, nodes, a[0], b, eid, q);
      var next := heap[a[0] := slot.slot];
      SoundAgree(heap, next, nodes, a[1..], eid);
      SoundAgree(heap, next, nodes, slot.rest, eid);
      CoversAgree(heap, next, a[1..], q);
      CoversAgree(heap, next, slot.rest, q);
      UnionCovers(next, nodes, a[1..], slot.rest, eid, q);
      UnionLists(next, nodes, a[1..], slot.rest);
      var r := Union(next, nodes, a[1..], slot.rest);
      CoversAgree(heap, r.heap, slot.placed, q);
      CoversFront(heap, a, q);
      CoversOne(r.heap, a[0], q);
      CoversConcat(r.heap, slot.placed, [a[0]], q);
      CoversConcat(r.heap, slot.placed + [a[0]], r.list, q);
    }
  }

  /** No contact loses endpoints or changes its node. */
  predicate Grown(c: Contact, d: Contact) {
    EndpointList.Names(c.endpoints) <= EndpointList.Names(d.endpoints) && d.node == c.node
  }

  lemma MergeGrows(held: Contact, candidate: Contact)
    ensures Grown(held, Merge(held, candidate).0)
  {
    hide EndpointList.Union, EndpointList.Names;
    EndpointList.UnionMeans(held.endpoints, candidate.endpoints);
  }

  lemma {:induction false} EarlierGrows(heap: ContactMap, nodes: NodeMap, slot: Contact, from: nat, b: seq<Ref>)
    requires Listed(heap, b)
    ensures Grown(slot, TakeEarlier(heap, nodes, slot, from, b).slot)
    decreases b
  {
    hide Merge, EndpointList.Names, SameNode, Overlap;
    if b != [] && heap[b[0]].fromMs <= from {
      MergeGrows(slot, heap[b[0]]);
      EarlierGrows(heap, nodes, Merge(slot, heap[b[0]]).0, from, b[1..]);
      EarlierGrows(heap, nodes, slot, from, b[1..]);
    }
  }

  lemma {:induction false} OverlappingGrows(heap: ContactMap, nodes: NodeMap, slot: Contact, to: nat, b: seq<Ref>)
    requires Listed(heap, b)
    ensures Grown(slot, TakeOverlapping(heap, nodes, slot, to, b).slot)
    decreases b
  {
    hide Merge, EndpointList.Names, SameNode;
    if b != [] {
      MergeGrows(slot, heap[b[0]]);
      OverlappingGrows(heap, nodes, Merge(slot, heap[b[0]]).0, to, b[1..]);
      OverlappingGrows(heap, nodes, slot, to, b[1..]);
    }
  }

  lemma {:induction false} UnionGrows(heap: ContactMap, nodes: NodeMap, a: seq<Ref>, b: seq<Ref>)
    requires Listed(heap, a) && Listed(heap, b)
    ensures var r := Union(heap, nodes, a, b);
      r.heap.Keys == heap.Keys && forall c :: c in heap ==> Grown(heap[c], r.heap[c])
    decreases a
  {
    hide TakeEarlier, TakeOverlapping, EndpointList.Names;
    if a != [] {
      var cur := heap[a[0]];
      var earlier := TakeEarlier(heap, nodes, cur, cur.fromMs, b);
      EarlierGrows(heap, nodes, cur, cur.fromMs, b);
      OverlappingGrows(heap, nodes, earlier.slot, cur.toMs, earlier.rest);
      var slot := Slot(heap, nodes, a[0], b);
      UnionGrows(heap[a[0] := slot.slot], nodes, a[1..], slot.rest);
    }
  }

  // ---- The loops

  method MergeContacts(h: Heap, held: Ref, candidate: Ref) returns (changed: bool)
    requires held in h.contacts && candidate in h.contacts
    modifies h`contacts
    ensures changed == Merge(old(h.contacts[held]), old(h.contacts[candidate])).1
    ensures h.contacts == old(h.contacts)[held := Merge(old(h.contacts[held]), old(h.contacts[candidate])).0]
  {
    hide EndpointList.Union, Recalculate;
    var into, from := h.contacts[held], h.contacts[candidate];
    var duration := into.toMs - into.fromMs;
    if from.fromMs < into.fromMs {
      into := into.(fromMs := from.fromMs);
    }
    if from.toMs > into.toMs {
      into := into.(toMs := from.toMs);
    }
    var endpoints := EndpointList.UnionEndpoints(into.endpoints, from.endpoints);
    into := into.(endpoints := endpoints);
    changed := into.bitrate != from.bitrate || into.toMs - into.fromMs != duration;
    if changed {
      into := into.(bitrate := from.bitrate);
    }
    h.contacts := h.contacts[held := into];
    if changed {
      h.RecalculateContactCapacity(held);
    }
  }

  /** The first inner loop; `modified` is the list of contacts whose capacity
      changed. */
  method PlaceEarlier(h: Heap, slot: Ref, from: nat, b: seq<Ref>, was: seq<Ref>)
    returns (placed: seq<Ref>, rest: seq<Ref>, modified: seq<Ref>)
    requires slot in h.contacts && Listed(h.contacts, b) && slot !in b
    modifies h`contacts
    ensures var r := TakeEarlier(old(h.contacts), h.nodes, old(h.contacts[slot]), from, b);
      && placed == r.placed && rest == r.rest
      && h.contacts == old(h.contacts)[slot := r.slot]
      && modified == Repeat(slot, r.modified) + was
  {
    hide Merge, Overlap, SameNode, TakeEarlier, AfterPass, Repeat;
    ghost var heap, nodes := h.contacts, h.nodes;
    ghost var whole := TakeEarlier(heap, nodes, heap[slot], from, b);
    ghost var count: nat := 0;
    placed, rest, modified := [], b, was;
    RepeatNone(slot, was);
    NothingPassed(whole);
    assert heap == heap[slot := heap[slot]];
    while rest != [] && h.contacts[rest[0]].fromMs <= from
      invariant Listed(heap, rest) && slot !in rest
      invariant slot in h.contacts && h.contacts == heap[slot := h.contacts[slot]]
      invariant modified == Repeat(slot, count) + was
      invariant whole == AfterPass(placed, count, TakeEarlier(heap, nodes, h.contacts[slot], from, rest))
      decreases rest
    {
      var candidate := rest[0];
      assert h.contacts[candidate] == heap[candidate];
      EarlierStep(heap, nodes, h.contacts[slot], from, rest, placed, count);
      RepeatMore(slot, count, was);
      if SameNode(h.nodes, h.contacts[candidate], h.contacts[slot])
         && Overlap(h.contacts[candidate], h.contacts[slot]) {
        var changed := MergeContacts(h, slot, candidate);
        if changed {
          modified := [slot] + modified;
          count := count + 1;
        }
      } else {
        placed := placed + [candidate];
      }
      rest := rest[1..];
    }
    EarlierStop(heap, nodes, h.contacts[slot], from, rest, placed, count);
  }

  lemma RepeatNone(x: Ref, was: seq<Ref>)
    ensures Repeat(x, 0) + was == was
  {
  }

  lemma RepeatMore(x: Ref, n: nat, was: seq<Ref>)
    ensures [x] + (Repeat(x, n) + was) == Repeat(x, n + 1) + was
  {
  }

  lemma NothingPassed(r: Pass)
    ensures AfterPass([], 0, r) == r
    ensures r.placed == [] ==> AfterKeeping([], 0, r) == r
  {
  }

  /** One candidate more in the first pass. */
  lemma EarlierStep(heap: ContactMap, nodes: NodeMap, slot: Contact, from: nat, b: seq<Ref>, placed: seq<Ref>,
                    count: nat)
    requires Listed(heap, b) && b != [] && heap[b[0]].fromMs <= from
    ensures var (merged, changed) := Merge(slot, heap[b[0]]);
      AfterPass(placed, count, TakeEarlier(heap, nodes, slot, from, b))
      == if SameNode(nodes, heap[b[0]], slot) && Overlap(heap[b[0]], slot)
         then AfterPass(placed, count + (if changed then 1 else 0), TakeEarlier(heap, nodes, merged, from, b[1..]))
         else AfterPass(placed + [b[0]], count, TakeEarlier(heap, nodes, slot, from, b[1..]))
  {
    hide Merge, Overlap, SameNode;
    var tail := TakeEarlier(heap, nodes, slot, from, b[1..]).placed;
    assert placed + ([b[0]] + tail) == placed + [b[0]] + tail;
  }

  lemma EarlierStop(heap: ContactMap, nodes: NodeMap, slot: Contact, from: nat, b: seq<Ref>, placed: seq<Ref>,
                    count: nat)
    requires Listed(heap, b) && (b == [] || heap[b[0]].fromMs > from)
    ensures AfterPass(placed, count, TakeEarlier(heap, nodes, slot, from, b)) == Pass(placed, slot, b, count)
  {
  }

  /** One candidate more in the second pass. */
  lemma OverlappingStep(heap: ContactMap, nodes: NodeMap, slot: Contact, to: nat, b: seq<Ref>, kept: seq<Ref>,
                        count: nat)
    requires Listed(heap, b) && b != []
    ensures var (merged, changed) := Merge(slot, heap[b[0]]);
      AfterKeeping(kept, count, TakeOverlapping(heap, nodes, slot, to, b))
      == if heap[b[0]].fromMs < to && SameNode(nodes, heap[b[0]], slot)
         then AfterKeeping(kept, count + (if changed then 1 else 0), TakeOverlapping(heap, nodes, merged, to, b[1..]))
         else AfterKeeping(kept + [b[0]], count, TakeOverlapping(heap, nodes, slot, to, b[1..]))
  {
    hide Merge, Overlap, SameNode;
    var tail := TakeOverlapping(heap, nodes, slot, to, b[1..]).rest;
    assert kept + ([b[0]] + tail) == kept + [b[0]] + tail;
  }

  lemma OverlappingStop(heap: ContactMap, nodes: NodeMap, slot: Contact, to: nat, kept: seq<Ref>, count: nat)
    ensures AfterKeeping(kept, count, TakeOverlapping(heap, nodes, slot, to, [])) == Pass([], slot, kept, count)
  {
  }

  /** What an earlier part of a pass and its remainder make together. */
  function AfterPass(placed: seq<Ref>, modified: nat, r: Pass): Pass
  {
    Pass(placed + r.placed, r.slot, r.rest, modified + r.modified)
  }

  /** The second inner loop. */
  method AbsorbOverlapping(h: Heap, slot: Ref, to: nat, b: seq<Ref>, was: seq<Ref>)
    returns (kept: seq<Ref>, modified: seq<Ref>)
    requires slot in h.contacts && Listed(h.contacts, b) && slot !in b
    modifies h`contacts
    ensures var r := TakeOverlapping(old(h.contacts), h.nodes, old(h.contacts[slot]), to, b);
      && kept == r.rest
      && h.contacts == old(h.contacts)[slot := r.slot]
      && modified == Repeat(slot, r.modified) + was
  {
    hide Merge, SameNode, TakeOverlapping, AfterKeeping, Repeat;
    ghost var heap, nodes := h.contacts, h.nodes;
    ghost var whole := TakeOverlapping(heap, nodes, heap[slot], to, b);
    ghost var count: nat := 0;
    var rest := b;
    kept, modified := [], was;
    RepeatNone(slot, was);
    NothingPassed(whole);
    assert heap == heap[slot := heap[slot]];
    while rest != []
      invariant Listed(heap, rest) && slot !in rest
      invariant slot in h.contacts && h.contacts == heap[slot := h.contacts[slot]]
      invariant modified == Repeat(slot, count) + was
      invariant whole == AfterKeeping(kept, count, TakeOverlapping(heap, nodes, h.contacts[slot], to, rest))
      decreases rest
    {
      var candidate := rest[0];
      assert h.contacts[candidate] == heap[candidate];
      OverlappingStep(heap, nodes, h.contacts[slot], to, rest, kept, count);
      RepeatMore(slot, count, was);
      if h.contacts[candidate].fromMs < to && SameNode(h.nodes, h.contacts[candidate], h.contacts[slot]) {
        var changed := MergeContacts(h, slot, candidate);
        if changed {
          modified := [slot] + modified;
          count := count + 1;
        }
      } else {
        kept := kept + [candidate];
      }
      rest := rest[1..];
    }
    OverlappingStop(heap, nodes, h.contacts[slot], to, kept, count);
  }

  function AfterKeeping(kept: seq<Ref>, modified: nat, r: Pass): Pass
  {
    Pass([], r.slot, kept + r.rest, modified + r.modified)
  }

  /** `contact_list_union` */
  method ContactListUnion(h: Heap, a: seq<Ref>, b: seq<Ref>) returns (list: seq<Ref>, modified: seq<Ref>)
    requires Listed(h.contacts, a) && Listed(h.contacts, b) && forall x :: x in a ==> x !in b
    modifies h`contacts
    ensures Result(list, h.contacts, modified) == Union(old(h.contacts), h.nodes, a, b)
  {
    hide TakeEarlier, TakeOverlapping, Slot, Union;
    ghost var heap, nodes := h.contacts, h.nodes;
    var slots, rest := a, b;
    list, modified := [], [];
    UnionStart(heap, nodes, a, b);
    while slots != []
      invariant Listed(h.contacts, slots) && Listed(h.contacts, rest) && forall x :: x in slots ==> x !in rest
      invariant Union(heap, nodes, a, b) == Onward(list, modified, Union(h.contacts, nodes, slots, rest))
      decreases slots
    {
      var slot := slots[0];
      var from, to := h.contacts[slot].fromMs, h.contacts[slot].toMs;
      UnionStep(h.contacts, nodes, slots, rest, list, modified);
      var placed, left, changed := PlaceEarlier(h, slot, from, rest, modified);
      rest, modified := AbsorbOverlapping(h, slot, to, left, changed);
      list := list + placed + [slot];
      slots := slots[1..];
    }
    UnionStop(h.contacts, nodes, rest, list, modified);
    list := list + rest;
  }

  /** What was listed and modified before, with what remains. */
  function Onward(list: seq<Ref>, modified: seq<Ref>, r: Result): Result {
    Result(list + r.list, r.heap, r.modified + modified)
  }

  lemma UnionStart(heap: ContactMap, nodes: NodeMap, a: seq<Ref>, b: seq<Ref>)
    requires Listed(heap, a) && Listed(heap, b)
    ensures Onward([], [], Union(heap, nodes, a, b)) == Union(heap, nodes, a, b)
  {
  }

  lemma UnionStop(heap: ContactMap, nodes: NodeMap, b: seq<Ref>, list: seq<Ref>, modified: seq<Ref>)
    requires Listed(heap, b)
    ensures Onward(list, modified, Union(heap, nodes, [], b)) == Result(list + b, heap, modified)
  {
  }

  /** The second pass does not look at the slot in the heap. */
  lemma {:induction false} OverlappingFrame(heap: ContactMap, nodes: NodeMap, x: Ref, c: Contact,
                                            slot: Contact, to: nat, b: seq<Ref>)
    requires Listed(heap, b) && x !in b
    ensures Listed(heap[x := c], b)
    ensures TakeOverlapping(heap[x := c], nodes, slot, to, b) == TakeOverlapping(heap, nodes, slot, to, b)
    decreases b
  {
    hide Merge, SameNode;
    if b != [] {
      assert heap[x := c][b[0]] == heap[b[0]];
      OverlappingFrame(heap, nodes, x, c, Merge(slot, heap[b[0]]).0, to, b[1..]);
      OverlappingFrame(heap, nodes, x, c, slot, to, b[1..]);
    }
  }

  lemma UnionStep(heap: ContactMap, nodes: NodeMap, slots: seq<Ref>, b: seq<Ref>, list: seq<Ref>, modified: seq<Ref>)
    requires Listed(heap, slots) && Listed(heap, b) && slots != [] && slots[0] !in b
    ensures var slot := slots[0];
      var earlier := TakeEarlier(heap, nodes, heap[slot], heap[slot].fromMs, b);
      var between := heap[slot := earlier.slot];
      var later := TakeOverlapping(between, nodes, earlier.slot, heap[slot].toMs, earlier.rest);
      && Listed(between[slot := later.slot], later.rest)
      && Onward(list, modified, Union(heap, nodes, slots, b))
         == Onward(list + earlier.placed + [slot],
                   Repeat(slot, later.modified) + (Repeat(slot, earlier.modified) + modified),
                   Union(between[slot := later.slot], nodes, slots[1..], later.rest))
  {
    hide TakeEarlier, TakeOverlapping;
    var slot := slots[0];
    var cur := heap[slot];
    var earlier := TakeEarlier(heap, nodes, cur, cur.fromMs, b);
    OverlappingFrame(heap, nodes, slot, earlier.slot, earlier.slot, cur.toMs, earlier.rest);
    var later := TakeOverlapping(heap, nodes, earlier.slot, cur.toMs, earlier.rest);
    var next := heap[slot := later.slot];
    assert heap[slot := earlier.slot][slot := later.slot] == next;
    var r := Union(next, nodes, slots[1..], later.rest);
    assert list + (earlier.placed + [slot] + r.list) == list + earlier.placed + [slot] + r.list;
    RepeatTwice(slot, later.modified, earlier.modified);
    assert r.modified + (Repeat(slot, later.modified) + Repeat(slot, earlier.modified)) + modified
        == r.modified + (Repeat(slot, later.modified) + (Repeat(slot, earlier.modified) + modified));
  }

  lemma RepeatTwice(x: Ref, m: nat, n: nat)
    ensures Repeat(x, m) + Repeat(x, n) == Repeat(x, n + m)
  {
  }
}
