/** Every run of the routing table's operations in which merging leaves the lists
    in order ends with an index that agrees with a scan of the nodes. */
module RoutingHistory {
  import opened Octets
  import opened Contacts
  import opened RoutingTable
  import opened RoutingIndex
  import opened RoutingRuns
  import opened RoutingUpdates
  import EndpointList
  import ContactUnion
  import ContactOrder
  import ContactWindows

  /** Operations; a node comes with the memory its command was parsed into. */
  datatype Operation =
    | Add(r: Ref, node: Node, recs: ContactMap)
    | Replace(r: Ref, node: Node, recs: ContactMap)
    | Delete(r: Ref, node: Node, recs: ContactMap)
    | DeleteByEid(eid: string)
    | Passed(c: Ref)

  /** With the windows that adding to a listed node gives its contacts, the lists
      are in order as they are. */
  predicate LeavesOrder(s: State, r: Ref)
    requires Linked(s) && r in s.nodes
  {
    var i := NodeIndex(s, s.nodeList, s.nodes[r].eid);
    i < |s.nodeList| ==> InOrder(MergedNode(s, s.nodeList[i], r))
  }

  ghost predicate Admissible(s: State, op: Operation)
    requires Consistent(s)
  {
    match op
    case Add(r, node, recs) =>
      Given(s, r, node, recs) && (LoadLinked(s, r, node, recs); LeavesOrder(Load(s, r, node, recs), r))
    case Replace(r, node, recs) => Given(s, r, node, recs)
    case Delete(r, node, recs) => Given(s, r, node, recs)
    case DeleteByEid(eid) => true
    case Passed(c) => true
  }

  ghost function Apply(s: State, op: Operation): State
    requires Consistent(s) && Admissible(s, op)
  {
    match op
    case Add(r, node, recs) => LoadLinked(s, r, node, recs); AddNode(Load(s, r, node, recs), r).1
    case Replace(r, node, recs) => LoadLinked(s, r, node, recs); ReplaceNode(Load(s, r, node, recs), r).1
    case Delete(r, node, recs) => LoadLinked(s, r, node, recs); DeleteNode(Load(s, r, node, recs), r).1
    case DeleteByEid(eid) => DeleteNodeByEid(s, eid).1
    case Passed(c) => OwnerListed(s, c); ContactPassed(s, c)
  }

  lemma OwnerListed(s: State, c: Ref)
    requires Consistent(s)
    ensures c in s.contactList && s.contacts[c].node.Some? ==> s.contacts[c].node.value in s.nodes
  {
    hide Represents, ContactOrder.Ordered, Scan, ContactsSound, ContactsOf;
    if c in s.contactList {
      var i := OwnerOf(s, c);
    }
  }

  // ---- Every operation keeps the invariant

  /** Adding a node keeps the index if and only if the lists are in order with the
      new windows: they are not sorted again. */
  lemma AddKeepsIndexExactly(s: State, r: Ref)
    requires Consistent(s) && r in s.nodes && r !in s.nodeList && Structured(s.contacts, s.nodes, [r])
    ensures Consistent(AddNode(s, r).1) <==> LeavesOrder(s, r)
  {
    hide Consistent, Structured, AddNodeToTables, MergedNode, InOrder;
    ConsistentLinked(s);
    var i := NodeIndex(s, s.nodeList, s.nodes[r].eid);
    if i < |s.nodeList| {
      var v := MergedNode(s, s.nodeList[i], r);
      if InOrder(v) {
        MergeKeeps(s, i, r);
      }
      if Consistent(AddNodeToTables(v, s.nodeList[i])) {
        MergeKeepsOnly(v, s.nodeList[i]);
      }
    } else {
      AddNewKeeps(s, r);
    }
  }

  /** So it does wherever no listed contact is retimed. */
  lemma RetimingNothingLeavesOrder(s: State, r: Ref)
    requires Consistent(s) && r in s.nodes
    requires var i := NodeIndex(s, s.nodeList, s.nodes[r].eid);
      i < |s.nodeList| ==> SameWindows(s.contacts, MergedNode(s, s.nodeList[i], r).contacts)
    ensures LeavesOrder(s, r)
  {
    hide Structured, Indexed, Scan, ContactsOf, MergedNode, InOrder, SameWindows;
    IndexedInOrder(s, Scan(s.contacts, s.nodes, s.nodeList), ContactsOf(s.nodes, s.nodeList));
    var i := NodeIndex(s, s.nodeList, s.nodes[r].eid);
    if i < |s.nodeList| {
      InOrderKeeps(s, MergedNode(s, s.nodeList[i], r));
    }
  }

  /** Every given contact lies inside each contact of the listed node that it
      overlaps. */
  predicate GivenInside(s: State, r: Ref)
    requires Linked(s) && r in s.nodes
  {
    var i := NodeIndex(s, s.nodeList, s.nodes[r].eid);
    i < |s.nodeList| ==>
      forall c :: c in s.nodes[s.nodeList[i]].contacts ==>
        ContactWindows.Inside(s.contacts, s.nodes[r].contacts, s.contacts[c])
  }

  /** So it does wherever the given windows bring nothing new. */
  lemma InsideLeavesOrder(s: State, r: Ref)
    requires Consistent(s) && r in s.nodes && r !in s.nodeList && Structured(s.contacts, s.nodes, [r])
    requires GivenInside(s, r)
    ensures LeavesOrder(s, r)
  {
    hide Consistent, Structured, MergedNode, SameWindows, ContactWindows.Inside, LeavesOrder;
    ConsistentLinked(s);
    var i := NodeIndex(s, s.nodeList, s.nodes[r].eid);
    if i < |s.nodeList| {
      InsideRetimesNothing(s, i, r);
    }
    RetimingNothingLeavesOrder(s, r);
  }

  lemma InsideRetimesNothing(s: State, i: nat, r: Ref)
    requires Consistent(s) && i < |s.nodeList| && r in s.nodes && r !in s.nodeList
    requires Structured(s.contacts, s.nodes, [r]) && s.nodes[r].eid == s.nodes[s.nodeList[i]].eid
    requires forall c :: c in s.nodes[s.nodeList[i]].contacts ==>
               ContactWindows.Inside(s.contacts, s.nodes[r].contacts, s.contacts[c])
    ensures SameWindows(s.contacts, MergedNode(s, s.nodeList[i], r).contacts)
  {
    hide Consistent, Structured, Linked, MergedNode, ContactUnion.Sound, ContactWindows.Inside, SameWindows;
    var n := s.nodeList[i];
    ConsistentLinked(s);
    ConsistentStructured(s);
    NodeSound(s, s.nodeList, n);
    NodeSound(s, [r], r);
    InsideMergesAlike(s, n, r);
  }

  lemma ConsistentStructured(s: State)
    requires Consistent(s)
    ensures Structured(s.contacts, s.nodes, s.nodeList)
  {
  }

  lemma NodeSound(s: State, list: seq<Ref>, n: Ref)
    requires Structured(s.contacts, s.nodes, list) && n in list
    ensures n in s.nodes && ContactUnion.Sound(s.contacts, s.nodes, s.nodes[n].contacts, s.nodes[n].eid)
    ensures forall c :: c in s.nodes[n].contacts ==> c in s.contacts && s.contacts[c].node == Some(n)
  {
    hide ContactUnion.StrictlySorted, ContactUnion.NonEmptyWindows, EidsDistinct, ContactUnion.Sound;
    OwnedSound(s, n, s.nodes[n].eid);
  }

  lemma InsideMergesAlike(s: State, n: Ref, r: Ref)
    requires Linked(s) && n in s.nodes && r in s.nodes && s.nodes[n].eid == s.nodes[r].eid
    requires ContactUnion.Sound(s.contacts, s.nodes, s.nodes[n].contacts, s.nodes[n].eid)
    requires ContactUnion.Sound(s.contacts, s.nodes, s.nodes[r].contacts, s.nodes[r].eid)
    requires forall c :: c in s.nodes[n].contacts ==> c in s.contacts && c !in s.nodes[r].contacts
    requires forall c :: c in s.nodes[r].contacts ==> c in s.contacts
    requires forall c :: c in s.nodes[n].contacts ==>
               ContactWindows.Inside(s.contacts, s.nodes[r].contacts, s.contacts[c])
    ensures SameWindows(s.contacts, MergedNode(s, n, r).contacts)
  {
    hide ContactUnion.Union, EndpointList.Union, DrainOverbooked, Linked, ContactWindows.Inside, ContactUnion.Sound;
    var cur, given := s.nodes[n], s.nodes[r];
    ContactUnion.UnionLists(s.contacts, s.nodes, cur.contacts, given.contacts);
    ContactWindows.UnionRetimesNothing(s.contacts, s.nodes, cur.contacts, given.contacts, cur.eid);
    var u := ContactUnion.Union(s.contacts, s.nodes, cur.contacts, given.contacts);
    DrainOverbookedAlike(Assigned(u.heap, u.list, n), u.modified);
  }

  function Window(node: Ref, fromMs: nat, toMs: nat): Contact {
    Contact(Some(node), fromMs, toMs, 0, 0, 0, 0, 0, [], [], false)
  }

  /** A contact that takes in an earlier one begins with it. */
  lemma MergedStart(s: State, n: Ref, r: Ref, a: Ref, b: Ref)
    requires Linked(s) && n in s.nodes && r in s.nodes && s.nodes[n].contacts == [a] && s.nodes[r].contacts == [b]
    requires a != b && ContactUnion.SameNode(s.nodes, s.contacts[b], s.contacts[a])
    requires Overlap(s.contacts[b], s.contacts[a]) && s.contacts[b].fromMs < s.contacts[a].fromMs
    ensures MergedNode(s, n, r).contacts[a].fromMs == s.contacts[b].fromMs
    ensures forall c :: c in s.contacts && c != a && c != b ==> MergedNode(s, n, r).contacts[c] == s.contacts[c]
  {
    hide Linked, EndpointList.Union, DrainOverbooked, ContactUnion.Merge, ContactUnion.SameNode, Overlap;
    var heap := s.contacts;
    LinkedAt(s, n);
    LinkedAt(s, r);
    var u := ContactUnion.Union(heap, s.nodes, [a], [b]);
    var merged := ContactUnion.Merge(heap[a], heap[b]).0;
    assert [b][0] == b && [b][1..] == [] && [a][0] == a && [a][1..] == [];
    assert ContactUnion.TakeEarlier(heap, s.nodes, merged, heap[a].fromMs, [b][1..]).slot == merged;
    var earlier := ContactUnion.TakeEarlier(heap, s.nodes, heap[a], heap[a].fromMs, [b]);
    assert earlier.slot == merged && earlier.rest == [] && earlier.placed == [];
    var slot := ContactUnion.Slot(heap, s.nodes, a, [b]);
    assert slot.slot == merged && slot.rest == [] && slot.placed == [];
    MergeStart(heap[a], heap[b]);
    assert ContactUnion.Union(heap[a := merged], s.nodes, [a][1..], slot.rest).heap == heap[a := merged];
    assert u.heap == heap[a := merged] && u.list == [a];
    ContactUnion.UnionLists(heap, s.nodes, [a], [b]);
    DrainOverbookedAlike(Assigned(u.heap, u.list, n), u.modified);
  }

  lemma MergeStart(held: Contact, candidate: Contact)
    requires candidate.fromMs < held.fromMs
    ensures ContactUnion.Merge(held, candidate).0.fromMs == candidate.fromMs
  {
    hide EndpointList.Union;
  }

  lemma ConsistentLinked(s: State)
    requires Consistent(s)
    ensures Linked(s)
  {
  }

  lemma ReplaceKeepsIndex(s: State, r: Ref)
    requires Consistent(s) && r in s.nodes && r !in s.nodeList && Structured(s.contacts, s.nodes, [r])
    ensures Consistent(ReplaceNode(s, r).1)
  {
    hide Consistent, Structured, AddNodeToTables, RemoveNodeFromTables;
    ConsistentLinked(s);
    var i := NodeIndex(s, s.nodeList, s.nodes[r].eid);
    if i < |s.nodeList| {
      ReplaceKeeps(s, i, r);
    }
  }

  lemma DeleteByEidKeepsIndex(s: State, eid: string)
    requires Consistent(s)
    ensures Consistent(DeleteNodeByEid(s, eid).1)
  {
    hide Consistent, RemoveNodeFromTables;
    ConsistentLinked(s);
    var i := NodeIndex(s, s.nodeList, eid);
    if i < |s.nodeList| {
      DeleteKeeps(s, i);
    }
  }

  lemma DeleteKeepsIndex(s: State, r: Ref)
    requires Consistent(s) && r in s.nodes && r !in s.nodeList && Structured(s.contacts, s.nodes, [r])
    ensures Consistent(DeleteNode(s, r).1)
  {
    hide Consistent, Structured, AddNodeToTables, RemoveNodeFromTables, TrimmedNode, DeleteNodeByEid;
    ConsistentLinked(s);
    DeleteByEidKeepsIndex(s, s.nodes[r].eid);
    var i := NodeIndex(s, s.nodeList, s.nodes[r].eid);
    if i < |s.nodeList| {
      TrimKeeps(s, i, r);
    }
  }

  lemma PassedKeepsIndex(s: State, c: Ref)
    requires Consistent(s)
    requires c in s.contactList && s.contacts[c].node.Some? ==> s.contacts[c].node.value in s.nodes
    ensures Consistent(ContactPassed(s, c))
  {
    hide Consistent, DeleteContact;
    if c in s.contactList {
      var i := OwnerOf(s, c);
      var t := s.(contacts := s.contacts[c := s.contacts[c].(bundles := [])]);
      QueueDropped(s, c);
      ForgetKeeps(t, i, c);
    }
  }

  lemma QueueDropped(s: State, c: Ref)
    requires Consistent(s) && c in s.contacts
    ensures Consistent(s.(contacts := s.contacts[c := s.contacts[c].(bundles := [])]))
  {
    hide Indexed, Scan, ContactsOf, EidsDistinct, ContactsSound;
    var t := s.(contacts := s.contacts[c := s.contacts[c].(bundles := [])]);
    ScanFrame(s.contacts, s.nodes, t.contacts, t.nodes, s.nodeList);
    StructuredFrame(s.contacts, s.nodes, t.contacts, t.nodes, s.nodeList);
    IndexedFrame(s, t, Scan(s.contacts, s.nodes, s.nodeList), ContactsOf(s.nodes, s.nodeList));
  }

  lemma OperationKeepsIndex(s: State, op: Operation)
    requires Consistent(s) && Admissible(s, op)
    ensures Consistent(Apply(s, op))
  {
    hide Consistent, Structured, Load, AddNode, ReplaceNode, DeleteNode, DeleteNodeByEid, ContactPassed, LeavesOrder;
    ConsistentLinked(s);
    match op
    case Add(r, node, recs) =>
      LoadKeeps(s, r, node, recs);
      LoadedHas(s, r, node, recs);
      AddKeepsIndexExactly(Load(s, r, node, recs), r);
    case Replace(r, node, recs) =>
      LoadKeeps(s, r, node, recs);
      LoadedHas(s, r, node, recs);
      ReplaceKeepsIndex(Load(s, r, node, recs), r);
    case Delete(r, node, recs) =>
      LoadKeeps(s, r, node, recs);
      LoadedHas(s, r, node, recs);
      DeleteKeepsIndex(Load(s, r, node, recs), r);
    case DeleteByEid(eid) =>
      DeleteByEidKeepsIndex(s, eid);
    case Passed(c) =>
      OwnerListed(s, c);
      PassedKeepsIndex(s, c);
  }

  lemma LoadedHas(s: State, r: Ref, node: Node, recs: ContactMap)
    ensures r in Load(s, r, node, recs).nodes
  {
  }

  // ---- Runs

  const EMPTY := State(map[], map[], [], [], map[])

  lemma EmptyConsistent()
    ensures Consistent(EMPTY)
  {
  }

  /** Every operation is admissible where it happens. */
  ghost predicate AdmissibleRun(ops: seq<Operation>)
    decreases |ops|, 0
  {
    ops == [] || (AdmissibleRun(ops[..|ops| - 1]) && Admissible(Run(ops[..|ops| - 1]), ops[|ops| - 1]))
  }

  /** The state after a run from the empty table. */
  ghost function Run(ops: seq<Operation>): (s: State)
    requires AdmissibleRun(ops)
    ensures Consistent(s)
    decreases |ops|, 1
  {
    if ops == [] then EmptyConsistent(); EMPTY
    else
      var before := Run(ops[..|ops| - 1]);
      OperationKeepsIndex(before, ops[|ops| - 1]);
      Apply(before, ops[|ops| - 1])
  }

  // ---- A run that retimes a contact

  /** A node with one contact of bitrate zero. */
  function OneWindow(r: Ref, eid: string, address: string, c: Ref, fromMs: nat, toMs: nat): (op: Operation)
    ensures op.Add?
  {
    Add(r, Node(eid, Some(address), [], [c]), map[c := Window(r, fromMs, toMs)])
  }

  /** Such a node, not listed yet, may always be added. */
  lemma NewWindow(s: State, r: Ref, eid: string, address: string, c: Ref, fromMs: nat, toMs: nat)
    requires Consistent(s) && r !in s.nodes && c !in s.contacts && fromMs < toMs
    ensures var op := OneWindow(r, eid, address, c, fromMs, toMs);
      && Given(s, r, op.node, op.recs)
      && Linked(Load(s, r, op.node, op.recs))
      && ((forall n :: n in s.nodeList ==> s.nodes[n].eid != eid) ==>
            LeavesOrder(Load(s, r, op.node, op.recs), r) && Admissible(s, op))
  {
    hide Consistent;
    var op := OneWindow(r, eid, address, c, fromMs, toMs);
    assert op.recs.Keys == {c};
    ConsistentLinked(s);
    LoadLinked(s, r, op.node, op.recs);
  }

  /** It goes to the front of the list; windows and nodes stay as they are. */
  lemma WindowAdded(s: State, r: Ref, eid: string, address: string, c: Ref, fromMs: nat, toMs: nat)
    requires Consistent(s) && r !in s.nodes && c !in s.contacts && fromMs < toMs
    requires forall n :: n in s.nodeList ==> s.nodes[n].eid != eid
    ensures var op := OneWindow(r, eid, address, c, fromMs, toMs);
      && Admissible(s, op)
      && Apply(s, op).nodes == s.nodes[r := op.node] && Apply(s, op).nodeList == [r] + s.nodeList
      && Apply(s, op).contacts == s.contacts[c := Recalculate(Window(r, fromMs, toMs))]
  {
    hide Consistent, Admissible, Given, Linked, Recalculate, AddNode, LeavesOrder;
    NewWindow(s, r, eid, address, c, fromMs, toMs);
    var op := OneWindow(r, eid, address, c, fromMs, toMs);
    var t := Load(s, r, op.node, op.recs);
    assert t.contacts == s.contacts[c := Window(r, fromMs, toMs)];
    ConsistentLinked(s);
    forall n | n in s.nodeList ensures n in t.nodes && t.nodes[n].eid != eid {
      ListedKnown(s, n);
    }
    NewNodeAdded(t, r, c);
  }

  lemma NewNodeAdded(s: State, r: Ref, c: Ref)
    requires Linked(s) && r in s.nodes && c in s.contacts && s.nodes[r].contacts == [c] && s.nodes[r].address.Some?
    requires forall n :: n in s.nodeList ==> n in s.nodes && s.nodes[n].eid != s.nodes[r].eid
    ensures var t := AddNode(s, r).1;
      && t.nodes == s.nodes && t.nodeList == [r] + s.nodeList
      && t.contacts == s.contacts[c := Recalculate(s.contacts[c])]
  {
    hide Linked, Recalculate, AddEntries, ContactOrder.Insert, EidsOf;
    var u := s.(nodeList := [r] + s.nodeList);
    assert Linked(u) by { ListedLinked(s, r); }
    OneContactAdded(u, s.nodes[r], c);
  }

  lemma ListedKnown(s: State, n: Ref)
    requires Linked(s) && n in s.nodeList
    ensures n in s.nodes
  {
  }

  lemma ListedLinked(s: State, r: Ref)
    requires Linked(s) && r in s.nodes
    ensures Linked(s.(nodeList := [r] + s.nodeList))
  {
  }

  lemma OneContactAdded(s: State, node: Node, c: Ref)
    requires Linked(s) && c in s.contacts
    ensures AddContacts(s, node, [c]) == AddContact(s, node, c)
  {
    hide AddContact, Linked;
    assert [c][..0] == [];
  }

  lemma RecalculateKeepsWindow(c: Contact)
    ensures var r := Recalculate(c);
      r.fromMs == c.fromMs && r.toMs == c.toMs && r.node == c.node && r.endpoints == c.endpoints
  {
  }

  /** Two nodes with a contact each, the first at 100 ms, the second at 50 ms. */
  const TWO_NODES := [OneWindow(1, "a", "x", 10, 100, 200), OneWindow(2, "b", "y", 20, 50, 60)]

  /** What a run of these leaves. */
  predicate TwoNodes(s: State) {
    && s.nodes.Keys == {1, 2} && s.contacts.Keys == {10, 20} && s.nodeList == [2, 1]
    && s.nodes[1] == Node("a", Some("x"), [], [10]) && s.nodes[2] == Node("b", Some("y"), [], [20])
    && s.contacts[10].fromMs == 100 && s.contacts[10].toMs == 200 && s.contacts[10].node == Some(1)
    && s.contacts[20].fromMs == 50
  }

  lemma TwoNodesRun()
    ensures AdmissibleRun(TWO_NODES) && TwoNodes(Run(TWO_NODES))
  {
    hide Admissible, Apply, Consistent, OneWindow, Recalculate;
    var a, b := TWO_NODES[0], TWO_NODES[1];
    assert TWO_NODES[..1] == [a] && [a][..0] == [];
    EmptyConsistent();
    WindowAdded(EMPTY, 1, "a", "x", 10, 100, 200);
    assert AdmissibleRun([]) && AdmissibleRun([a]);
    var s := Run([a]);
    assert Run([]) == EMPTY;
    assert s == Apply(EMPTY, a);
    assert s.nodeList == [1] && s.nodes == map[1 := a.node] && a.node.eid == "a" by {
      OneWindowFields(1, "a", "x", 10, 100, 200);
    }
    assert s.contacts == map[10 := Recalculate(Window(1, 100, 200))];
    WindowAdded(s, 2, "b", "y", 20, 50, 60);
    OneWindowFields(1, "a", "x", 10, 100, 200);
    OneWindowFields(2, "b", "y", 20, 50, 60);
    RecalculateKeepsWindow(Window(1, 100, 200));
    RecalculateKeepsWindow(Window(2, 50, 60));
    assert AdmissibleRun(TWO_NODES);
    assert Run(TWO_NODES) == Apply(s, b);
  }

  lemma OneWindowFields(r: Ref, eid: string, address: string, c: Ref, fromMs: nat, toMs: nat)
    ensures OneWindow(r, eid, address, c, fromMs, toMs).node == Node(eid, Some(address), [], [c])
    ensures OneWindow(r, eid, address, c, fromMs, toMs).recs == map[c := Window(r, fromMs, toMs)]
  {
  }

  lemma ContactIn(s: State, n: Ref, c: Ref)
    requires Linked(s) && n in s.nodeList && c in s.nodes[n].contacts
    ensures c in ContactsOf(s.nodes, s.nodeList)
  {
  }

  /** The index lists the second node's contact first. */
  lemma SecondListedFirst(s: State) returns (i: nat, j: nat)
    requires Consistent(s) && TwoNodes(s)
    ensures i < j < |s.contactList| && s.contactList[i] == 20 && s.contactList[j] == 10
  {
    hide Represents, Scan, ContactsSound, Linked;
    assert s.nodeList[0] == 2 && s.nodeList[1] == 1 && 1 in s.nodeList && 2 in s.nodeList;
    assert s.nodes[1].contacts[0] == 10 && s.nodes[2].contacts[0] == 20;
    ConsistentLinked(s);
    ContactIn(s, 1, 10);
    ContactIn(s, 2, 20);
    assert 10 in s.contactList && 20 in s.contactList;
    i :| 0 <= i < |s.contactList| && s.contactList[i] == 20;
    j :| 0 <= j < |s.contactList| && s.contactList[j] == 10;
    assert ContactOrder.Key(s.contacts[20], true) < ContactOrder.Key(s.contacts[10], true);
  }

  /** After this run a contact from 40 to 110 ms is given for the first node. It
      retimes the first node's contact in front of the second one's, and the index
      is no longer what a scan finds. */
  lemma RetimedContactMisplaced()
    ensures AdmissibleRun(TWO_NODES)
    ensures var s, op := Run(TWO_NODES), OneWindow(3, "a", "x", 30, 40, 110);
      && Given(s, 3, op.node, op.recs) && Linked(Load(s, 3, op.node, op.recs))
      && !Consistent(AddNode(Load(s, 3, op.node, op.recs), 3).1)
  {
    hide Run, AdmissibleRun;
    TwoNodesRun();
    GivenMisplaces(Run(TWO_NODES));
  }

  lemma GivenMisplaces(s: State)
    requires Consistent(s) && TwoNodes(s)
    ensures var op := OneWindow(3, "a", "x", 30, 40, 110);
      && Given(s, 3, op.node, op.recs) && Linked(Load(s, 3, op.node, op.recs))
      && !Consistent(AddNode(Load(s, 3, op.node, op.recs), 3).1)
  {
    hide Consistent, Given, Linked, Structured, AddNode, MergedNode, OneWindow, InOrder;
    var op := OneWindow(3, "a", "x", 30, 40, 110);
    NewWindow(s, 3, "a", "x", 30, 40, 110);
    LoadKeeps(s, 3, op.node, op.recs);
    var t := Load(s, 3, op.node, op.recs);
    AddKeepsIndexExactly(t, 3);
    OneWindowFields(3, "a", "x", 30, 40, 110);
    assert t.contacts[10] == s.contacts[10] && t.contacts[20] == s.contacts[20];
    assert t.contacts[30] == Window(3, 40, 110);
    var i, j := SecondListedFirst(s);
    assert NodeIndex(t, t.nodeList, "a") == 1 by {
      assert t.nodes[t.nodeList[0]].eid == "b" && t.nodes[t.nodeList[1]].eid == "a";
    }
    MergedStart(t, 1, 3, 10, 30);
    NotInOrder(MergedNode(t, 1, 3), i, j);
  }

  lemma NotInOrder(v: State, i: nat, j: nat)
    requires Linked(v) && i < j < |v.contactList| && v.contactList[i] in v.contacts && v.contactList[j] in v.contacts
    requires v.contacts[v.contactList[i]].fromMs > v.contacts[v.contactList[j]].fromMs
    ensures !InOrder(v)
  {
    assert ContactOrder.Key(v.contacts[v.contactList[i]], true) > ContactOrder.Key(v.contacts[v.contactList[j]], true);
  }

  /** What a scan of the node list finds for an endpoint ID. */
  ghost predicate Finds(s: State, eid: string, c: Ref)
    requires Linked(s)
  {
    exists n :: n in s.nodeList && c in s.nodes[n].contacts
      && (eid == s.nodes[n].eid || eid in EndpointList.Names(s.nodes[n].endpoints)
          || eid in EndpointList.Names(s.contacts[c].endpoints))
  }

  lemma ScanFinds(s: State, eid: string, c: Ref)
    requires Linked(s) && Reachable(s.contacts, s.nodes, s.nodeList)
    ensures (eid, c) in Scan(s.contacts, s.nodes, s.nodeList) <==> Finds(s, eid, c)
  {
    hide EidsOf;
    if (eid, c) in Scan(s.contacts, s.nodes, s.nodeList) {
      var n :| n in s.nodeList && c in s.nodes[n].contacts && eid in EidsOf(s.nodes[n], s.contacts[c]);
      EidsIn(s.nodes[n], s.contacts[c], eid);
    }
    if Finds(s, eid, c) {
      var n :| n in s.nodeList && c in s.nodes[n].contacts
        && (eid == s.nodes[n].eid || eid in EndpointList.Names(s.nodes[n].endpoints)
            || eid in EndpointList.Names(s.contacts[c].endpoints));
      EidsIn(s.nodes[n], s.contacts[c], eid);
    }
  }

  /** After every run, looking an endpoint ID up gives exactly the contacts a
      scan of all nodes finds for it, once each, by end time, and counted; an
      endpoint ID nothing is found for has no entry. */
  lemma LookupIsScan(ops: seq<Operation>, eid: string)
    requires AdmissibleRun(ops)
    ensures var s := Run(ops);
      && (eid in s.table <==> exists c :: Finds(s, eid, c))
      && (eid in s.table ==>
            && (forall c :: c in s.table[eid].contacts <==> Finds(s, eid, c))
            && ContactOrder.Ordered(s.contacts, s.table[eid].contacts, false)
            && s.table[eid].refCount == |s.table[eid].contacts|)
  {
    hide Run, AdmissibleRun, Scan, Finds, ContactOrder.Ordered, Structured, ContactsOf;
    var s := Run(ops);
    ConsistentLinked(s);
    LinkedReachable(s);
    forall c: Ref ensures (eid, c) in Scan(s.contacts, s.nodes, s.nodeList) <==> Finds(s, eid, c) {
      ScanFinds(s, eid, c);
    }
    if eid in s.table {
      assert EntrySound(s.contacts, s.table[eid]);
      assert Finds(s, eid, s.table[eid].contacts[0]);
    }
  }

  /** After every run the global list is all contacts of all nodes, once each, by
      start time. */
  lemma ContactListIsScan(ops: seq<Operation>)
    requires AdmissibleRun(ops)
    ensures var s := Run(ops);
      && ContactOrder.Ordered(s.contacts, s.contactList, true)
      && forall c :: c in s.contactList <==> exists n :: n in s.nodeList && c in s.nodes[n].contacts
  {
    hide Run, AdmissibleRun, Scan, ContactOrder.Ordered, ContactsSound, Represents;
    var s := Run(ops);
    assert forall c :: c in s.contactList <==> c in ContactOrder.Elements(s.contactList);
    forall c ensures c in s.contactList <==> exists n :: n in s.nodeList && c in s.nodes[n].contacts {
      assert c in s.contactList <==> c in ContactsOf(s.nodes, s.nodeList);
    }
  }
}
