/** Operations that change a listed node or contact keep the index. */
module RoutingUpdates {
  import opened Octets
  import opened Contacts
  import opened RoutingTable
  import opened RoutingIndex
  import opened RoutingRuns
  import EndpointList
  import ContactUnion
  import ContactDifference
  import ContactOrder

  // ---- Bundles do not matter

  lemma {:induction false} DrainAllAlike(heap: ContactMap, list: seq<Ref>)
    requires forall c :: c in list ==> c in heap
    ensures forall c :: c in heap ==> Alike(DrainAll(heap, list)[c], heap[c])
    ensures forall c :: c in heap && c !in list ==> DrainAll(heap, list)[c] == heap[c]
  {
    hide Drained;
    if list != [] {
      var before, last := list[..|list| - 1], list[|list| - 1];
      assert list == before + [last];
      DrainAllAlike(heap, before);
      DrainedAlike(DrainAll(heap, before)[last]);
    }
  }

  lemma {:induction false} DrainOverbookedAlike(heap: ContactMap, list: seq<Ref>)
    requires forall c :: c in list ==> c in heap
    ensures forall c :: c in heap ==> Alike(DrainOverbooked(heap, list)[c], heap[c])
    ensures forall c :: c in heap && c !in list ==> DrainOverbooked(heap, list)[c] == heap[c]
  {
    hide Drained;
    if list != [] {
      var before, last := list[..|list| - 1], list[|list| - 1];
      assert list == before + [last];
      DrainOverbookedAlike(heap, before);
      DrainedAlike(DrainOverbooked(heap, before)[last]);
    }
  }

  // ---- A listed node changes

  /** From `t` to `v` only node `n` and contacts of `n` or of the unlisted node
      `r` change, and `n` stays sound. */
  ghost predicate ChangedAt(t: State, v: State, n: Ref, r: Ref) {
    && n in t.nodes && r in t.nodes && n in v.nodes
    && v.table == t.table && v.contactList == t.contactList && v.nodeList == t.nodeList
    && t.contacts.Keys <= v.contacts.Keys
    && (forall m :: m in t.nodes && m != n ==> m in v.nodes && v.nodes[m] == t.nodes[m])
    && v.nodes[n].eid == t.nodes[n].eid
    && (forall c :: c in t.contacts && c !in t.nodes[n].contacts && c !in t.nodes[r].contacts
          ==> v.contacts[c] == t.contacts[c])
    && ContactsSound(v.contacts, v.nodes[n].contacts)
    && forall c :: c in v.nodes[n].contacts ==> v.contacts[c].node == Some(n)
  }

  lemma ChangedOthers(t: State, v: State, n: Ref, r: Ref, rest: seq<Ref>)
    requires ChangedAt(t, v, n, r) && n !in rest && r !in rest
    requires Structured(t.contacts, t.nodes, rest)
    requires Reachable(t.contacts, t.nodes, [n]) && Owned(t.contacts, t.nodes, [n])
    requires Reachable(t.contacts, t.nodes, [r]) && Owned(t.contacts, t.nodes, [r])
    ensures Structured(v.contacts, v.nodes, rest)
    ensures Scan(v.contacts, v.nodes, rest) == Scan(t.contacts, t.nodes, rest)
    ensures ContactsOf(v.nodes, rest) == ContactsOf(t.nodes, rest)
  {
    hide Scan, ContactsOf, ContactsSound, EidsDistinct;
    assert n in [n] && r in [r];
    forall m, c | m in rest && c in t.nodes[m].contacts ensures c in v.contacts && v.contacts[c] == t.contacts[c] {
      assert t.contacts[c].node == Some(m);
    }
    StructuredFrame(t.contacts, t.nodes, v.contacts, v.nodes, rest);
    ScanFrame(t.contacts, t.nodes, v.contacts, v.nodes, rest);
  }

  /** Such a node, with its contacts entered again, completes the index if the
      lists are still in order. */
  lemma ChangedKeeps(t: State, v: State, i: nat, r: Ref, pairs: Pairs, all: set<Ref>)
    requires i < |t.nodeList| && Linked(v) && ChangedAt(t, v, t.nodeList[i], r) && r !in t.nodeList
    requires Structured(t.contacts, t.nodes, t.nodeList) && Structured(t.contacts, t.nodes, [r])
    requires Indexed(t, pairs, all) && InOrder(v)
    requires var rest := t.nodeList[..i] + t.nodeList[i + 1..];
      && Reachable(t.contacts, t.nodes, rest)
      && Scan(t.contacts, t.nodes, rest) <= pairs
      && ContactsOf(t.nodes, rest) <= all
      && Reachable(v.contacts, v.nodes, t.nodeList)
      && pairs <= Scan(v.contacts, v.nodes, t.nodeList)
      && all <= ContactsOf(v.nodes, t.nodeList)
    ensures Consistent(AddNodeToTables(v, t.nodeList[i]))
  {
    hide Scan, ContactsOf, ContactsSound, EidsDistinct, InOrder, Indexed, AddNodeToTables, Linked;
    var n, rest := t.nodeList[i], t.nodeList[..i] + t.nodeList[i + 1..];
    StructuredDrop(t.contacts, t.nodes, t.nodeList, i);
    assert forall m :: m in rest ==> m in t.nodeList;
    ChangedOthers(t, v, n, r, rest);
    IndexedReordered(t, v, pairs, all);
    OneDistinct(v.nodes, n);
    assert Structured(v.contacts, v.nodes, [n]);
    StructuredEids(t.contacts, t.nodes, t.nodeList, i);
    StructuredInsert(v.contacts, v.nodes, t.nodeList, i);
    EnterKeeps(v, i, pairs, all);
  }

  lemma StructuredEids(heap: ContactMap, nodes: NodeMap, list: seq<Ref>, i: nat)
    requires i < |list| && Structured(heap, nodes, list)
    ensures forall m :: m in list[..i] + list[i + 1..] ==> m in nodes && nodes[m].eid != nodes[list[i]].eid
  {
    hide ContactsSound;
    var rest := list[..i] + list[i + 1..];
    forall m | m in rest ensures m in nodes && nodes[m].eid != nodes[list[i]].eid {
      var k :| 0 <= k < |rest| && rest[k] == m;
      assert m == list[if k < i then k else k + 1];
    }
  }

  // ---- Deleting endpoints and contacts of a node

  lemma {:induction false} SweepSorted(heap: ContactMap, a: seq<Ref>, b: seq<Ref>)
    requires ContactsSound(heap, a) && ContactUnion.Listed(heap, b)
    ensures ContactsSound(heap, ContactDifference.Sweep(heap, a, b).list)
    decreases |a| + |b|
  {
    hide ContactsSound, ContactDifference.Trimmed;
    if a == [] {
      NothingSound(heap);
    } else {
      SoundFront(heap, a);
      if b == [] || heap[b[0]].fromMs > heap[a[0]].fromMs {
        SweepSorted(heap, a[1..], b);
        SweepWithin(heap, a[1..], b);
        SoundAgain(heap, a, ContactDifference.Sweep(heap, a[1..], b).list);
      } else if ContactDifference.Matches(heap[b[0]], heap[a[0]]) {
        SweepSorted(heap, a[1..], b[1..]);
        SweepWithin(heap, a[1..], b[1..]);
        SoundAgain(heap, a, ContactDifference.Sweep(heap, a[1..], b[1..]).list);
      } else {
        SweepSorted(heap, a, b[1..]);
      }
    }
  }

  lemma NothingSound(heap: ContactMap)
    ensures ContactsSound(heap, [])
  {
  }

  lemma SoundFront(heap: ContactMap, a: seq<Ref>)
    requires ContactsSound(heap, a) && a != []
    ensures ContactUnion.Listed(heap, a) && ContactsSound(heap, a[1..])
  {
    assert forall i :: 0 <= i < |a[1..]| ==> a[1..][i] == a[i + 1];
  }

  /** The first contact in front of some of the others. */
  lemma SoundAgain(heap: ContactMap, a: seq<Ref>, list: seq<Ref>)
    requires ContactsSound(heap, a) && a != [] && ContactsSound(heap, list) && forall c :: c in list ==> c in a[1..]
    ensures ContactsSound(heap, [a[0]] + list)
  {
    var r := [a[0]] + list;
    forall c | c in a[1..] ensures heap[a[0]].fromMs < heap[c].fromMs {
      var k :| 0 <= k < |a[1..]| && a[1..][k] == c;
      assert a[k + 1] == c;
    }
    assert forall i :: 0 < i < |r| ==> r[i] == list[i - 1] && list[i - 1] in list;
  }

  lemma TrimmedChanged(t: State, n: Ref, r: Ref)
    requires Linked(t) && n in t.nodes && r in t.nodes
    requires ContactsSound(t.contacts, t.nodes[n].contacts)
    requires forall c :: c in t.nodes[n].contacts ==> t.contacts[c].node == Some(n)
    ensures ChangedAt(t, TrimmedNode(t, n, r), n, r) && SameWindows(t.contacts, TrimmedNode(t, n, r).contacts)
  {
    hide Linked, ContactsSound, ContactDifference.Sweep, EndpointList.Difference, DrainAll;
    var cur, given, v := t.nodes[n], t.nodes[r], TrimmedNode(t, n, r);
    LinkedAt(t, n);
    LinkedAt(t, r);
    SweepWithin(t.contacts, cur.contacts, given.contacts);
    SweepSorted(t.contacts, cur.contacts, given.contacts);
    var o := ContactDifference.Sweep(t.contacts, cur.contacts, given.contacts);
    var heap := t.contacts + o.changes;
    DrainAllAlike(heap, o.modified);
    DrainAllAlike(DrainAll(heap, o.modified), o.deleted);
    ContactsSoundFrame(t.contacts, v.contacts, o.list);
  }

  lemma TrimKeeps(s: State, i: nat, r: Ref)
    requires Consistent(s) && i < |s.nodeList| && r in s.nodes && r !in s.nodeList
    requires Structured(s.contacts, s.nodes, [r])
    ensures Consistent(AddNodeToTables(TrimmedNode(RemoveNodeFromTables(s, s.nodeList[i], false), s.nodeList[i], r),
                                       s.nodeList[i]))
  {
    hide Scan, ContactsOf, ContactsSound, EidsDistinct, Indexed, InOrder, SameWindows, AddNodeToTables, RemoveContacts,
         TrimmedNode, ChangedAt;
    var n, rest := s.nodeList[i], s.nodeList[..i] + s.nodeList[i + 1..];
    LeaveKeeps(s, i, false);
    var t := RemoveNodeFromTables(s, n, false);
    var v := TrimmedNode(t, n, r);
    TrimmedChanged(t, n, r);
    StructuredDrop(s.contacts, s.nodes, s.nodeList, i);
    assert forall m :: m in rest ==> m in s.nodeList;
    ChangedOthers(t, v, n, r, rest);
    LinkedReachable(v);
    ScanSplit(v.contacts, v.nodes, t.nodeList, i);
    IndexedInOrder(t, Scan(t.contacts, t.nodes, rest), ContactsOf(t.nodes, rest));
    InOrderKeeps(t, v);
    ChangedKeeps(t, v, i, r, Scan(t.contacts, t.nodes, rest), ContactsOf(t.nodes, rest));
  }

  lemma LinkedReachable(s: State)
    requires Linked(s)
    ensures Reachable(s.contacts, s.nodes, s.nodeList)
  {
  }

  // ---- Merging a node into a listed one

  /** The contacts of a node that owns them, as the union wants them. */
  lemma OwnedSound(t: State, n: Ref, eid: string)
    requires n in t.nodes && t.nodes[n].eid == eid && ContactsSound(t.contacts, t.nodes[n].contacts)
    requires forall c :: c in t.nodes[n].contacts ==> t.contacts[c].node == Some(n)
    ensures ContactUnion.Sound(t.contacts, t.nodes, t.nodes[n].contacts, eid)
  {
    hide ContactUnion.StrictlySorted, ContactUnion.NonEmptyWindows;
    assert forall i :: 0 <= i < |t.nodes[n].contacts| ==> t.nodes[n].contacts[i] in t.nodes[n].contacts;
  }

  /** What `routing_table_add_node` makes of a listed node. */
  lemma MergedChanged(t: State, n: Ref, r: Ref)
    requires Linked(t) && n in t.nodes && r in t.nodes && n != r && t.nodes[n].eid == t.nodes[r].eid
    requires ContactsSound(t.contacts, t.nodes[n].contacts) && ContactsSound(t.contacts, t.nodes[r].contacts)
    requires forall c :: c in t.nodes[n].contacts ==> t.contacts[c].node == Some(n)
    requires forall c :: c in t.nodes[r].contacts ==> t.contacts[c].node == Some(r)
    ensures ChangedAt(t, MergedNode(t, n, r), n, r)
    ensures forall c :: c in t.nodes[n].contacts ==> c in MergedNode(t, n, r).nodes[n].contacts
  {
    hide Linked, ContactUnion.Union, EndpointList.Union, DrainOverbooked, Assigned,
         ContactUnion.StrictlySorted, ContactUnion.NonEmptyWindows, ContactUnion.OfNode;
    var cur, given, v := t.nodes[n], t.nodes[r], MergedNode(t, n, r);
    LinkedAt(t, n);
    LinkedAt(t, r);
    OwnedSound(t, n, cur.eid);
    OwnedSound(t, r, cur.eid);
    ContactUnion.UnionLists(t.contacts, t.nodes, cur.contacts, given.contacts);
    ContactUnion.UnionSound(t.contacts, t.nodes, cur.contacts, given.contacts, cur.eid, -1);
    var u := ContactUnion.Union(t.contacts, t.nodes, cur.contacts, given.contacts);
    var heap := Assigned(u.heap, u.list, n);
    DrainOverbookedAlike(heap, u.modified);
    ContactsSoundFrame(u.heap, v.contacts, u.list);
  }

  lemma EidsIn(node: Node, c: Contact, e: string)
    ensures e in EidsOf(node, c)
            <==> e == node.eid || e in EndpointList.Names(node.endpoints) || e in EndpointList.Names(c.endpoints)
  {
    EidsAreNames(node.endpoints, e);
    EidsAreNames(c.endpoints, e);
  }

  lemma EidsAreNames(list: seq<EndpointList.Endpoint>, e: string)
    ensures e in Eids(list) <==> e in EndpointList.Names(list)
  {
    if e in Eids(list) {
      var i :| 0 <= i < |list| && Eids(list)[i] == e;
      assert list[i].eid == e;
    }
    if e in EndpointList.Names(list) {
      var i :| 0 <= i < |list| && list[i].eid == e;
      assert Eids(list)[i] == e;
    }
  }

  /** The merged node's contacts are entered under all they were before. */
  lemma MergedPairsGrow(t: State, n: Ref, r: Ref)
    requires Linked(t) && n in t.nodes && r in t.nodes
    ensures var v := MergedNode(t, n, r);
      && (forall c :: c in t.nodes[n].contacts ==> c in t.contacts)
      && (forall c :: c in v.nodes[n].contacts ==> c in v.contacts)
      && PairsOf(t.contacts, t.nodes[n], t.nodes[n].contacts) <= PairsOf(v.contacts, v.nodes[n], v.nodes[n].contacts)
      && ContactOrder.Elements(t.nodes[n].contacts) <= ContactOrder.Elements(v.nodes[n].contacts)
  {
    hide Linked, ContactUnion.Union, EndpointList.Union, DrainOverbooked, Assigned, EidsOf, EndpointList.Names;
    var cur, given, v := t.nodes[n], t.nodes[r], MergedNode(t, n, r);
    LinkedAt(t, n);
    LinkedAt(t, r);
    LinkedAt(v, n);
    ContactUnion.UnionLists(t.contacts, t.nodes, cur.contacts, given.contacts);
    ContactUnion.UnionGrows(t.contacts, t.nodes, cur.contacts, given.contacts);
    var u := ContactUnion.Union(t.contacts, t.nodes, cur.contacts, given.contacts);
    DrainOverbookedAlike(Assigned(u.heap, u.list, n), u.modified);
    EndpointList.UnionMeans(cur.endpoints, given.endpoints);
    forall c, e | c in cur.contacts && e in EidsOf(cur, t.contacts[c]) ensures e in EidsOf(v.nodes[n], v.contacts[c]) {
      EidsIn(cur, t.contacts[c], e);
      EidsIn(v.nodes[n], v.contacts[c], e);
    }
  }

  /** Merging a node keeps the index if it leaves the lists in order. */
  lemma MergeKeeps(s: State, i: nat, r: Ref)
    requires Consistent(s) && i < |s.nodeList| && r in s.nodes && r !in s.nodeList
    requires Structured(s.contacts, s.nodes, [r]) && s.nodes[r].eid == s.nodes[s.nodeList[i]].eid
    requires InOrder(MergedNode(s, s.nodeList[i], r))
    ensures Consistent(AddNodeToTables(MergedNode(s, s.nodeList[i], r), s.nodeList[i]))
  {
    hide Scan, ContactsOf, ContactsSound, EidsDistinct, Indexed, AddNodeToTables, MergedNode, ChangedAt, InOrder,
         PairsOf, ContactOrder.Elements, Linked;
    var n, rest := s.nodeList[i], s.nodeList[..i] + s.nodeList[i + 1..];
    var v := MergedNode(s, n, r);
    assert r in [r];
    MergedChanged(s, n, r);
    MergedPairsGrow(s, n, r);
    StructuredDrop(s.contacts, s.nodes, s.nodeList, i);
    assert forall m :: m in rest ==> m in s.nodeList;
    ChangedOthers(s, v, n, r, rest);
    LinkedReachable(v);
    ScanSplit(s.contacts, s.nodes, s.nodeList, i);
    ScanSplit(v.contacts, v.nodes, s.nodeList, i);
    ChangedKeeps(s, v, i, r, Scan(s.contacts, s.nodes, s.nodeList), ContactsOf(s.nodes, s.nodeList));
  }

  /** Lists out of order stay out of order. */
  lemma MergeKeepsOnly(v: State, n: Ref)
    requires Linked(v) && n in v.nodes && Consistent(AddNodeToTables(v, n))
    ensures InOrder(v)
  {
    hide Linked, Structured, Indexed, Scan, ContactsOf, InOrder, AddContacts;
    var u := AddNodeToTables(v, n);
    LinkedReachable(u);
    IndexedInOrder(u, Scan(u.contacts, u.nodes, u.nodeList), ContactsOf(u.nodes, u.nodeList));
    LinkedAt(v, n);
    AddContactsOrder(v, v.nodes[n], v.nodes[n].contacts);
  }

  // ---- A contact that has passed

  lemma RemovedSound(heap: ContactMap, cs: seq<Ref>, c: Ref)
    requires ContactsSound(heap, cs) && c in cs
    ensures ContactsSound(heap, ContactOrder.Remove(cs, c))
    ensures ContactOrder.Elements(ContactOrder.Remove(cs, c)) == ContactOrder.Elements(cs) - {c}
  {
    hide ContactOrder.IndexOf;
    var i := ContactOrder.IndexOf(cs, c);
    var r := ContactOrder.Remove(cs, c);
    assert i < |cs|;
    assert forall k :: 0 <= k < |r| ==> r[k] == cs[if k < i then k else k + 1];
    assert ContactOrder.Distinct(cs);
    ContactOrder.DroppedElements(cs, i);
  }

  lemma RemovedPairs(heap: ContactMap, other: ContactMap, node: Node, c: Ref)
    requires ContactsSound(heap, node.contacts) && c in node.contacts && c in other
    requires forall x :: x in heap && x != c ==> x in other && other[x] == heap[x]
    ensures var left := node.(contacts := ContactOrder.Remove(node.contacts, c));
      && (forall x :: x in left.contacts ==> x in other)
      && PairsOf(other, left, left.contacts) == PairsOf(heap, node, node.contacts) - Under(EidsOf(node, heap[c]), c)
  {
    hide ContactOrder.Remove;
    var left := node.(contacts := ContactOrder.Remove(node.contacts, c));
    RemovedSound(heap, node.contacts, c);
    assert forall x :: x in left.contacts <==> x in ContactOrder.Elements(left.contacts);
    assert forall x :: x in node.contacts <==> x in ContactOrder.Elements(node.contacts);
    assert forall x :: x in left.contacts ==> EidsOf(left, other[x]) == EidsOf(node, heap[x]);
  }

  /** The owner of a listed contact, and its position in the node list. */
  lemma OwnerOf(s: State, c: Ref) returns (i: nat)
    requires Consistent(s) && c in s.contactList
    ensures i < |s.nodeList| && c in s.nodes[s.nodeList[i]].contacts
    ensures c in s.contacts && s.contacts[c].node == Some(s.nodeList[i])
  {
    hide Represents, ContactOrder.Ordered, Scan, ContactsSound;
    assert c in ContactOrder.Elements(s.contactList);
    var n :| n in s.nodeList && c in s.nodes[n].contacts;
    i :| 0 <= i < |s.nodeList| && s.nodeList[i] == n;
  }

  lemma ForgottenIndexed(s: State, n: Ref, c: Ref, pairs: Pairs, all: set<Ref>)
    requires Linked(s) && Indexed(s, pairs, all) && c in s.contacts && s.contacts[c].node == Some(n) && n in s.nodes
    requires s.contacts[c].bundles == []
    ensures Indexed(DeleteContact(s, c), pairs - Under(EidsOf(s.nodes[n], s.contacts[c]), c), all - {c})
  {
    hide Represents, ContactOrder.Ordered, ContactOrder.Remove, Under, EidsOf, RemoveEntries;
    var t, eids := DeleteContact(s, c), EidsOf(s.nodes[n], s.contacts[c]);
    RemoveEntriesMeans(s.contacts, s.table, pairs, eids, c);
    ContactOrder.RemoveMeans(s.contacts, s.contactList, c, true);
    RepresentsKeeps(s.contacts, t.contacts, t.table, pairs - Under(eids, c));
    OrderedKeeps(s.contacts, t.contacts, t.contactList, true);
  }

  lemma ForgetKeeps(s: State, i: nat, c: Ref)
    requires Consistent(s) && i < |s.nodeList| && c in s.nodes[s.nodeList[i]].contacts
    requires s.contacts[c].node == Some(s.nodeList[i]) && s.contacts[c].bundles == []
    ensures Consistent(DeleteContact(s, c))
  {
    hide Indexed, Scan, ContactsOf, PairsOf, Under, EidsOf, ContactOrder.Elements, ContactOrder.Remove, EidsDistinct,
         ContactsSound, RemoveEntries;
    var n, rest, t := s.nodeList[i], s.nodeList[..i] + s.nodeList[i + 1..], DeleteContact(s, c);
    var node := s.nodes[n];
    var eids := EidsOf(node, s.contacts[c]);
    ForgottenIndexed(s, n, c, Scan(s.contacts, s.nodes, s.nodeList), ContactsOf(s.nodes, s.nodeList));
    StructuredDrop(s.contacts, s.nodes, s.nodeList, i);
    ScanSplit(s.contacts, s.nodes, s.nodeList, i);
    ScanDisjoint(s.contacts, s.nodes, n, rest);
    forall m, x | m in rest && x in s.nodes[m].contacts
      ensures x != c && x in s.contacts && t.contacts[x] == s.contacts[x]
    {
      assert s.contacts[x].node == Some(m);
    }
    ScanFrame(s.contacts, s.nodes, t.contacts, t.nodes, rest);
    StructuredFrame(s.contacts, s.nodes, t.contacts, t.nodes, rest);
    RemovedSound(s.contacts, node.contacts, c);
    RemovedPairs(s.contacts, t.contacts, node, c);
    OneDistinct(s.nodes, n);
    ForgottenOwner(s, n, c);
    StructuredEids(s.contacts, s.nodes, s.nodeList, i);
    StructuredInsert(t.contacts, t.nodes, s.nodeList, i);
    ScanSplit(t.contacts, t.nodes, s.nodeList, i);
    UnderWithin(s.contacts, node, c);
    assert Scan(t.contacts, t.nodes, s.nodeList) == Scan(s.contacts, s.nodes, s.nodeList) - Under(eids, c);
    InElements(node.contacts, c);
    assert ContactsOf(t.nodes, s.nodeList) == ContactsOf(s.nodes, s.nodeList) - {c};
  }

  lemma InElements(list: seq<Ref>, c: Ref)
    ensures c in list <==> c in ContactOrder.Elements(list)
  {
  }

  lemma UnderWithin(heap: ContactMap, node: Node, c: Ref)
    requires c in node.contacts && forall x :: x in node.contacts ==> x in heap
    ensures Under(EidsOf(node, heap[c]), c) <= PairsOf(heap, node, node.contacts)
  {
    hide EidsOf;
  }

  lemma ForgottenOwner(s: State, n: Ref, c: Ref)
    requires Linked(s) && n in s.nodes && c in s.nodes[n].contacts && s.contacts[c].node == Some(n)
    requires s.contacts[c].bundles == [] && Structured(s.contacts, s.nodes, [n])
    ensures var t := DeleteContact(s, c); Structured(t.contacts, t.nodes, [n])
  {
    hide RemoveEntries, ContactOrder.Remove, ContactUnion.StrictlySorted, ContactUnion.NonEmptyWindows;
    var t, cs := DeleteContact(s, c), s.nodes[n].contacts;
    assert n in [n];
    RemovedSound(s.contacts, cs, c);
    var left := ContactOrder.Remove(cs, c);
    forall x | x in left ensures x in cs {
      InElements(left, x);
      InElements(cs, x);
    }
    ContactsSoundFrame(s.contacts, t.contacts, left);
    OneDistinct(t.nodes, n);
  }
}
