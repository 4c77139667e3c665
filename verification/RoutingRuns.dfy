/** The invariant of the routing table: its index agrees with a scan of the nodes.
    Entering and leaving nodes keep it. */
module RoutingRuns {
  import opened Octets
  import opened Contacts
  import opened RoutingTable
  import opened RoutingIndex
  import ContactUnion
  import ContactOrder

  type NodeMap = map<Ref, Node>

  // ---- The invariant

  predicate EidsDistinct(nodes: NodeMap, list: seq<Ref>)
    requires forall n :: n in list ==> n in nodes
  {
    forall i, j :: 0 <= i < j < |list| ==> nodes[list[i]].eid != nodes[list[j]].eid
  }

  /** A node's own contacts: strictly sorted by start, with non-empty windows. */
  predicate ContactsSound(heap: ContactMap, list: seq<Ref>) {
    && ContactUnion.Listed(heap, list)
    && ContactUnion.StrictlySorted(heap, list)
    && ContactUnion.NonEmptyWindows(heap, list)
  }

  /** Listed nodes differ in their endpoint IDs and own their contacts. */
  predicate Structured(heap: ContactMap, nodes: NodeMap, list: seq<Ref>) {
    && Reachable(heap, nodes, list)
    && EidsDistinct(nodes, list)
    && Owned(heap, nodes, list)
    && forall n :: n in list ==> ContactsSound(heap, nodes[n].contacts)
  }

  ghost predicate Consistent(s: State) {
    && Linked(s)
    && Structured(s.contacts, s.nodes, s.nodeList)
    && Indexed(s, Scan(s.contacts, s.nodes, s.nodeList), ContactsOf(s.nodes, s.nodeList))
  }

  // ---- Frames

  lemma StructuredFrame(heap: ContactMap, nodes: NodeMap, heap1: ContactMap, nodes1: NodeMap, list: seq<Ref>)
    requires Structured(heap, nodes, list)
    requires forall n :: n in list ==> n in nodes1 && nodes1[n] == nodes[n]
    requires forall n, c :: n in list && c in nodes[n].contacts ==> c in heap1 && Alike(heap1[c], heap[c])
    ensures Structured(heap1, nodes1, list)
  {
    forall n | n in list ensures ContactsSound(heap1, nodes1[n].contacts) {
      ContactsSoundFrame(heap, heap1, nodes[n].contacts);
    }
  }

  lemma ContactsSoundFrame(heap: ContactMap, heap1: ContactMap, cs: seq<Ref>)
    requires ContactsSound(heap, cs)
    requires forall c :: c in cs ==> c in heap1 && heap1[c].fromMs == heap[c].fromMs && heap1[c].toMs == heap[c].toMs
    ensures ContactsSound(heap1, cs)
  {
  }

  lemma StructuredDrop(heap: ContactMap, nodes: NodeMap, list: seq<Ref>, i: nat)
    requires Structured(heap, nodes, list) && i < |list|
    ensures Structured(heap, nodes, list[..i] + list[i + 1..])
    ensures list[i] !in list[..i] + list[i + 1..]
  {
    hide ContactsSound;
    var rest := list[..i] + list[i + 1..];
    assert forall k :: 0 <= k < |rest| ==> rest[k] == list[if k < i then k else k + 1];
  }

  // ---- Entering and leaving the tables

  /** Entering the contacts of the node at `i` completes an index that holds at
      least what the other nodes' contacts need and at most what all need. */
  lemma EnterKeeps(t: State, i: nat, pairs: Pairs, all: set<Ref>)
    requires Linked(t) && Structured(t.contacts, t.nodes, t.nodeList) && i < |t.nodeList|
    requires Indexed(t, pairs, all)
    requires var rest := t.nodeList[..i] + t.nodeList[i + 1..];
      && Reachable(t.contacts, t.nodes, rest)
      && Scan(t.contacts, t.nodes, rest) <= pairs <= Scan(t.contacts, t.nodes, t.nodeList)
      && ContactsOf(t.nodes, rest) <= all <= ContactsOf(t.nodes, t.nodeList)
    ensures Consistent(AddNodeToTables(t, t.nodeList[i]))
  {
    hide Linked, Indexed, Scan, ContactsOf, PairsOf, ContactOrder.Elements, AddContacts, EidsDistinct, ContactsSound,
         Owned;
    var n := t.nodeList[i];
    var node := t.nodes[n];
    LinkedAt(t, n);
    AddContactsMeans(t, node, node.contacts, pairs, all);
    ScanSplit(t.contacts, t.nodes, t.nodeList, i);
    var u := AddNodeToTables(t, n);
    assert pairs + PairsOf(t.contacts, node, node.contacts) == Scan(t.contacts, t.nodes, t.nodeList);
    assert all + ContactOrder.Elements(node.contacts) == ContactsOf(t.nodes, t.nodeList);
    ScanFrame(t.contacts, t.nodes, u.contacts, u.nodes, t.nodeList);
    StructuredFrame(t.contacts, t.nodes, u.contacts, u.nodes, t.nodeList);
  }

  lemma LinkedAt(s: State, n: Ref)
    requires Linked(s) && n in s.nodes
    ensures forall c :: c in s.nodes[n].contacts ==> c in s.contacts
  {
  }

  /** Taking the contacts of the node at `i` out leaves the index of the others. */
  lemma LeaveKeeps(s: State, i: nat, drop: bool)
    requires Consistent(s) && i < |s.nodeList|
    ensures var rest, t := s.nodeList[..i] + s.nodeList[i + 1..], RemoveNodeFromTables(s, s.nodeList[i], drop);
      && Structured(t.contacts, t.nodes, rest)
      && Indexed(t, Scan(t.contacts, t.nodes, rest), ContactsOf(t.nodes, rest))
      && (!drop ==> t.contacts == s.contacts && t.nodes == s.nodes)
      && (forall m :: m in s.nodes && m != s.nodeList[i] ==> t.nodes[m] == s.nodes[m])
      && (forall c :: c in s.contacts && c !in s.nodes[s.nodeList[i]].contacts ==> t.contacts[c] == s.contacts[c])
  {
    hide Linked, Indexed, Scan, ContactsOf, PairsOf, ContactOrder.Elements, RemoveContacts, EidsDistinct, ContactsSound;
    var n, rest := s.nodeList[i], s.nodeList[..i] + s.nodeList[i + 1..];
    var node, t := s.nodes[n], RemoveNodeFromTables(s, n, drop);
    LinkedAt(s, n);
    RemoveContactsMeans(s, n, node, node.contacts, drop, Scan(s.contacts, s.nodes, s.nodeList),
                        ContactsOf(s.nodes, s.nodeList));
    StructuredDrop(s.contacts, s.nodes, s.nodeList, i);
    ScanSplit(s.contacts, s.nodes, s.nodeList, i);
    ScanDisjoint(s.contacts, s.nodes, n, rest);
    assert Scan(s.contacts, s.nodes, s.nodeList) - PairsOf(s.contacts, node, node.contacts)
        == Scan(s.contacts, s.nodes, rest);
    assert ContactsOf(s.nodes, s.nodeList) - ContactOrder.Elements(node.contacts) == ContactsOf(s.nodes, rest);
    OthersKept(s, t, n, rest);
    ScanFrame(s.contacts, s.nodes, t.contacts, t.nodes, rest);
    StructuredFrame(s.contacts, s.nodes, t.contacts, t.nodes, rest);
  }

  /** Contacts of other nodes are not contacts of `n`. */
  lemma OthersKept(s: State, t: State, n: Ref, rest: seq<Ref>)
    requires n in s.nodes && Reachable(s.contacts, s.nodes, rest) && Owned(s.contacts, s.nodes, rest) && n !in rest
    requires Reachable(s.contacts, s.nodes, [n]) && Owned(s.contacts, s.nodes, [n])
    requires s.contacts.Keys == t.contacts.Keys
    requires forall x :: x in s.contacts && x !in s.nodes[n].contacts ==> t.contacts[x] == s.contacts[x]
    ensures forall m, c :: m in rest && c in s.nodes[m].contacts ==>
              c !in s.nodes[n].contacts && c in t.contacts && t.contacts[c] == s.contacts[c]
  {
    assert n in [n];
    forall m, c | m in rest && c in s.nodes[m].contacts ensures c !in s.nodes[n].contacts && c in s.contacts {
      assert s.contacts[c].node == Some(m);
    }
  }

  // ---- Operations on nodes that were just parsed

  /** The parsed node and its contacts put into memory. */
  function Load(s: State, r: Ref, node: Node, recs: ContactMap): State {
    s.(nodes := s.nodes[r := node], contacts := s.contacts + recs)
  }

  /** What the caller hands over: fresh memory, and contacts as
      `node_prepare_and_verify` leaves them. */
  predicate Given(s: State, r: Ref, node: Node, recs: ContactMap) {
    && r !in s.nodes
    && recs.Keys !! s.contacts.Keys
    && ContactsSound(recs, node.contacts)
    && forall c :: c in recs ==> recs[c].node == Some(r)
  }

  lemma LoadKeeps(s: State, r: Ref, node: Node, recs: ContactMap)
    requires Consistent(s) && Given(s, r, node, recs)
    ensures var t := Load(s, r, node, recs);
      && Consistent(t)
      && r !in t.nodeList
      && Structured(t.contacts, t.nodes, [r])
  {
    hide Indexed, Scan, ContactsOf, EidsDistinct, ContactUnion.StrictlySorted, ContactUnion.NonEmptyWindows;
    var t := Load(s, r, node, recs);
    LoadLinked(s, r, node, recs);
    ScanFrame(s.contacts, s.nodes, t.contacts, t.nodes, s.nodeList);
    StructuredFrame(s.contacts, s.nodes, t.contacts, t.nodes, s.nodeList);
    ContactsSoundFrame(recs, t.contacts, node.contacts);
    IndexedFrame(s, t, Scan(s.contacts, s.nodes, s.nodeList), ContactsOf(s.nodes, s.nodeList));
    OneDistinct(t.nodes, r);
  }

  lemma OneDistinct(nodes: NodeMap, r: Ref)
    requires r in nodes
    ensures EidsDistinct(nodes, [r])
  {
  }

  lemma LoadLinked(s: State, r: Ref, node: Node, recs: ContactMap)
    requires Linked(s) && Given(s, r, node, recs)
    ensures Linked(Load(s, r, node, recs))
  {
  }

  /** The index only depends on windows. */
  lemma IndexedFrame(s: State, t: State, pairs: Pairs, all: set<Ref>)
    requires Indexed(s, pairs, all) && SameWindows(s.contacts, t.contacts)
    requires t.table == s.table && t.contactList == s.contactList
    ensures Indexed(t, pairs, all)
  {
    hide Represents, ContactOrder.Ordered, SameWindows;
    RepresentsKeeps(s.contacts, t.contacts, s.table, pairs);
    OrderedKeeps(s.contacts, t.contacts, s.contactList, true);
  }

  /** Another node can be listed at `i` if its endpoint ID is new. */
  lemma StructuredInsert(heap: ContactMap, nodes: NodeMap, list: seq<Ref>, i: nat)
    requires i < |list| && Structured(heap, nodes, list[..i] + list[i + 1..]) && Structured(heap, nodes, [list[i]])
    requires forall m :: m in list[..i] + list[i + 1..] ==> nodes[m].eid != nodes[list[i]].eid
    ensures Structured(heap, nodes, list)
  {
    hide ContactsSound;
    var n, rest := list[i], list[..i] + list[i + 1..];
    assert list == list[..i] + [n] + list[i + 1..];
    assert n in [n];
    assert forall m :: m in list <==> m == n || m in rest;
    assert forall k :: 0 <= k < |list| && k != i ==> list[k] == rest[if k < i then k else k - 1];
    forall k | 0 <= k < |list| && k != i ensures nodes[list[k]].eid != nodes[n].eid {
      assert list[k] in rest;
    }
    EidsInsert(nodes, list, i);
  }

  lemma EidsInsert(nodes: NodeMap, list: seq<Ref>, i: nat)
    requires i < |list| && forall n :: n in list ==> n in nodes
    requires var rest := list[..i] + list[i + 1..]; (forall n :: n in rest ==> n in nodes) && EidsDistinct(nodes, rest)
    requires forall k :: 0 <= k < |list| && k != i ==> nodes[list[k]].eid != nodes[list[i]].eid
    ensures EidsDistinct(nodes, list)
  {
    var rest := list[..i] + list[i + 1..];
    forall j, k | 0 <= j < k < |list| ensures nodes[list[j]].eid != nodes[list[k]].eid {
      if j != i && k != i {
        assert list[j] == rest[if j < i then j else j - 1] && list[k] == rest[if k < i then k else k - 1];
      }
    }
  }

  lemma AddNewKeeps(s: State, r: Ref)
    requires Consistent(s) && r in s.nodes && r !in s.nodeList && Structured(s.contacts, s.nodes, [r])
    requires NodeIndex(s, s.nodeList, s.nodes[r].eid) == |s.nodeList|
    ensures Consistent(AddNodeToTables(s.(nodeList := [r] + s.nodeList), r))
  {
    hide Indexed, Scan, ContactsOf, EidsDistinct, ContactsSound, Owned, AddNodeToTables, NodeIndex;
    var t := s.(nodeList := [r] + s.nodeList);
    assert t.nodeList[..0] + t.nodeList[1..] == s.nodeList;
    forall m | m in s.nodeList ensures s.nodes[m].eid != s.nodes[r].eid {
      var k :| 0 <= k < |s.nodeList| && s.nodeList[k] == m;
    }
    StructuredInsert(s.contacts, s.nodes, t.nodeList, 0);
    ScanSplit(s.contacts, s.nodes, t.nodeList, 0);
    IndexedFrame(s, t, Scan(s.contacts, s.nodes, s.nodeList), ContactsOf(s.nodes, s.nodeList));
    EnterKeeps(t, 0, Scan(s.contacts, s.nodes, s.nodeList), ContactsOf(s.nodes, s.nodeList));
  }

  lemma DeleteKeeps(s: State, i: nat)
    requires Consistent(s) && i < |s.nodeList|
    ensures var rest := s.nodeList[..i] + s.nodeList[i + 1..];
      Linked(s.(nodeList := rest)) && Consistent(RemoveNodeFromTables(s.(nodeList := rest), s.nodeList[i], true))
  {
    hide Indexed, Scan, ContactsOf, EidsDistinct, ContactsSound, Owned, RemoveContacts;
    var rest, n := s.nodeList[..i] + s.nodeList[i + 1..], s.nodeList[i];
    LeaveKeeps(s, i, true);
    var t := RemoveNodeFromTables(s, n, true);
    RemoveIgnoresList(s, n, s.nodes[n], s.nodes[n].contacts, true, rest);
    IndexedFrame(t, t.(nodeList := rest), Scan(t.contacts, t.nodes, rest), ContactsOf(t.nodes, rest));
  }

  lemma RemoveOneIgnoresList(s: State, n: Ref, node: Node, c: Ref, drop: bool, list: seq<Ref>)
    requires Linked(s) && n in s.nodes && c in s.contacts && forall m :: m in list ==> m in s.nodes
    ensures Linked(s.(nodeList := list))
    ensures RemoveContact(s.(nodeList := list), n, node, c, drop)
            == RemoveContact(s, n, node, c, drop).(nodeList := list)
  {
    hide RemoveEntries, EidsOf, Dropped, ContactOrder.Remove;
  }

  /** Taking contacts out of the tables does not look at the node list. */
  lemma {:induction false} RemoveIgnoresList(s: State, n: Ref, node: Node, cs: seq<Ref>, drop: bool, list: seq<Ref>)
    requires Linked(s) && n in s.nodes && (forall c :: c in cs ==> c in s.contacts)
    requires forall m :: m in list ==> m in s.nodes
    ensures Linked(s.(nodeList := list))
    ensures RemoveContacts(s.(nodeList := list), n, node, cs, drop)
            == RemoveContacts(s, n, node, cs, drop).(nodeList := list)
  {
    hide RemoveContact, Linked;
    LinkedWith(s, list);
    if cs != [] {
      var before := cs[..|cs| - 1];
      RemoveIgnoresList(s, n, node, before, drop, list);
      RemoveOneIgnoresList(RemoveContacts(s, n, node, before, drop), n, node, cs[|cs| - 1], drop, list);
    }
  }

  lemma LinkedWith(s: State, list: seq<Ref>)
    requires Linked(s) && forall m :: m in list ==> m in s.nodes
    ensures Linked(s.(nodeList := list))
  {
  }

  lemma ReplaceKeeps(s: State, i: nat, r: Ref)
    requires Consistent(s) && i < |s.nodeList| && r in s.nodes && r !in s.nodeList
    requires Structured(s.contacts, s.nodes, [r]) && s.nodes[r].eid == s.nodes[s.nodeList[i]].eid
    ensures var t := RemoveNodeFromTables(s, s.nodeList[i], true);
      Linked(t.(nodeList := t.nodeList[i := r])) && Consistent(AddNodeToTables(t.(nodeList := t.nodeList[i := r]), r))
  {
    hide Indexed, Scan, ContactsOf, EidsDistinct, ContactsSound, AddNodeToTables, RemoveContacts, Linked;
    var n, rest := s.nodeList[i], s.nodeList[..i] + s.nodeList[i + 1..];
    LeaveKeeps(s, i, true);
    var t := RemoveNodeFromTables(s, n, true);
    var u := t.(nodeList := t.nodeList[i := r]);
    LinkedWith(t, u.nodeList);
    assert u.nodeList[i] == r && u.nodeList[..i] + u.nodeList[i + 1..] == rest;
    StructuredDrop(s.contacts, s.nodes, s.nodeList, i);
    ContactsApart(s, n, r);
    StructuredFrame(s.contacts, s.nodes, t.contacts, t.nodes, [r]);
    OtherEids(s, i);
    StructuredInsert(t.contacts, t.nodes, u.nodeList, i);
    ScanSplit(t.contacts, t.nodes, u.nodeList, i);
    IndexedFrame(t, u, Scan(t.contacts, t.nodes, rest), ContactsOf(t.nodes, rest));
    EnterKeeps(u, i, Scan(t.contacts, t.nodes, rest), ContactsOf(t.nodes, rest));
  }

  lemma OtherEids(s: State, i: nat)
    requires Consistent(s) && i < |s.nodeList|
    ensures forall m :: m in s.nodeList[..i] + s.nodeList[i + 1..] ==>
              m in s.nodes && s.nodes[m].eid != s.nodes[s.nodeList[i]].eid
  {
    hide Indexed, Scan, ContactsOf, ContactsSound;
    var rest := s.nodeList[..i] + s.nodeList[i + 1..];
    forall m | m in rest ensures m in s.nodes && s.nodes[m].eid != s.nodes[s.nodeList[i]].eid {
      var k :| 0 <= k < |rest| && rest[k] == m;
      assert m == s.nodeList[if k < i then k else k + 1];
    }
  }

  /** Nodes that own their contacts share none. */
  lemma ContactsApart(s: State, n: Ref, r: Ref)
    requires n != r && Reachable(s.contacts, s.nodes, [n]) && Reachable(s.contacts, s.nodes, [r])
    requires Owned(s.contacts, s.nodes, [n]) && Owned(s.contacts, s.nodes, [r])
    ensures forall c :: c in s.nodes[r].contacts ==> c !in s.nodes[n].contacts
  {
    assert n in [n] && r in [r];
    forall c | c in s.nodes[r].contacts ensures c !in s.nodes[n].contacts {
      assert s.contacts[c].node == Some(r);
    }
  }
}
