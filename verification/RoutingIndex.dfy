/** What the routing table's index stands for, and what entering and removing
    contacts does to it. */
module RoutingIndex {
  import opened Octets
  import opened Contacts
  import opened RoutingTable
  import ContactOrder

  // ---- What the table and the list stand for

  type Pairs = set<(string, Ref)>

  /** The table holds exactly these pairs of endpoint ID and contact. */
  ghost predicate Represents(heap: ContactMap, table: Table, pairs: Pairs) {
    && (forall e, c :: (e in table && c in table[e].contacts) <==> (e, c) in pairs)
    && (forall e :: e in table ==> EntrySound(heap, table[e]))
  }

  /** Sorted by end, without duplicates, and counted. */
  predicate EntrySound(heap: ContactMap, entry: Entry) {
    ContactOrder.Ordered(heap, entry.contacts, false) && entry.refCount == |entry.contacts| > 0
  }

  lemma AddEntryMeans(heap: ContactMap, table: Table, pairs: Pairs, eid: string, c: Ref)
    requires c in heap && TableListed(heap, table) && Represents(heap, table, pairs)
    ensures Represents(heap, AddEntry(heap, table, eid, c), pairs + {(eid, c)})
  {
    hide ContactOrder.Ordered, ContactOrder.Insert;
    var was := if eid in table then table[eid].contacts else [];
    NothingOrdered(heap);
    ContactOrder.InsertMeans(heap, was, c, false);
    var list := ContactOrder.Insert(heap, was, c, false);
    assert forall x :: x in list <==> x in ContactOrder.Elements(list);
    assert forall x :: x in was <==> x in ContactOrder.Elements(was);
    assert c in list;
  }

  lemma NothingOrdered(heap: ContactMap)
    ensures ContactOrder.Ordered(heap, [], false) && ContactOrder.Ordered(heap, [], true)
  {
  }

  lemma RemoveEntryMeans(heap: ContactMap, table: Table, pairs: Pairs, eid: string, c: Ref)
    requires TableListed(heap, table) && Represents(heap, table, pairs)
    ensures Represents(heap, RemoveEntry(heap, table, eid, c), pairs - {(eid, c)})
  {
    hide ContactOrder.Ordered, ContactOrder.Remove;
    if eid in table && c in table[eid].contacts {
      var was := table[eid].contacts;
      ContactOrder.RemoveMeans(heap, was, c, false);
      var list := ContactOrder.Remove(was, c);
      assert forall x :: x in list <==> x in ContactOrder.Elements(list);
      assert forall x :: x in was <==> x in ContactOrder.Elements(was);
    } else {
      assert pairs - {(eid, c)} == pairs;
    }
  }

  /** One contact under several endpoint IDs. */
  function Under(eids: seq<string>, c: Ref): Pairs {
    set e | e in eids :: (e, c)
  }

  lemma UnderLast(eids: seq<string>, c: Ref)
    requires eids != []
    ensures Under(eids, c) == Under(eids[..|eids| - 1], c) + {(eids[|eids| - 1], c)}
  {
    assert eids == eids[..|eids| - 1] + [eids[|eids| - 1]];
  }

  lemma {:induction false} AddEntriesMeans(heap: ContactMap, table: Table, pairs: Pairs, eids: seq<string>, c: Ref)
    requires c in heap && TableListed(heap, table) && Represents(heap, table, pairs)
    ensures Represents(heap, AddEntries(heap, table, eids, c), pairs + Under(eids, c))
  {
    hide Represents, AddEntry, TableListed, Under;
    if eids == [] {
      assert Under(eids, c) == {} by { UnderNothing(c); }
      assert pairs + {} == pairs;
    } else {
      var before := eids[..|eids| - 1];
      AddEntriesMeans(heap, table, pairs, before, c);
      AddEntryMeans(heap, AddEntries(heap, table, before, c), pairs + Under(before, c), eids[|eids| - 1], c);
      UnderLast(eids, c);
      assert pairs + Under(eids, c) == pairs + Under(before, c) + {(eids[|eids| - 1], c)};
    }
  }

  lemma UnderNothing(c: Ref)
    ensures Under([], c) == {}
  {
  }

  lemma {:induction false} RemoveEntriesMeans(heap: ContactMap, table: Table, pairs: Pairs, eids: seq<string>, c: Ref)
    requires TableListed(heap, table) && Represents(heap, table, pairs)
    ensures Represents(heap, RemoveEntries(heap, table, eids, c), pairs - Under(eids, c))
  {
    hide Represents, RemoveEntry, TableListed, Under;
    if eids == [] {
      assert Under(eids, c) == {} by { UnderNothing(c); }
      assert pairs - {} == pairs;
    } else {
      var before := eids[..|eids| - 1];
      RemoveEntriesMeans(heap, table, pairs, before, c);
      RemoveEntryMeans(heap, RemoveEntries(heap, table, before, c), pairs - Under(before, c), eids[|eids| - 1], c);
      UnderLast(eids, c);
      assert pairs - Under(eids, c) == pairs - Under(before, c) - {(eids[|eids| - 1], c)};
    }
  }

  // ---- Memory that changes without being retimed

  /** Every contact keeps its window. */
  predicate SameWindows(heap: ContactMap, other: ContactMap) {
    forall c :: c in heap ==> c in other && other[c].fromMs == heap[c].fromMs && other[c].toMs == heap[c].toMs
  }

  /** Nothing changed that the index depends on. */
  predicate Alike(c: Contact, d: Contact) {
    c.fromMs == d.fromMs && c.toMs == d.toMs && c.endpoints == d.endpoints && c.node == d.node
  }

  lemma OrderedKeeps(heap: ContactMap, other: ContactMap, list: seq<Ref>, byFrom: bool)
    requires ContactOrder.Ordered(heap, list, byFrom) && SameWindows(heap, other)
    ensures ContactOrder.Ordered(other, list, byFrom)
  {
  }

  lemma RepresentsKeeps(heap: ContactMap, other: ContactMap, table: Table, pairs: Pairs)
    requires Represents(heap, table, pairs) && SameWindows(heap, other)
    ensures Represents(other, table, pairs)
  {
    hide ContactOrder.Ordered, SameWindows;
    forall e | e in table ensures EntrySound(other, table[e]) {
      assert EntrySound(heap, table[e]);
      OrderedKeeps(heap, other, table[e].contacts, false);
    }
  }

  // ---- The two indexes together

  ghost predicate Indexed(s: State, pairs: Pairs, all: set<Ref>) {
    && Represents(s.contacts, s.table, pairs)
    && ContactOrder.Ordered(s.contacts, s.contactList, true)
    && ContactOrder.Elements(s.contactList) == all
  }

  /** Every list is in the order of the windows, without duplicates. */
  predicate InOrder(s: State) {
    && ContactOrder.Ordered(s.contacts, s.contactList, true)
    && forall e :: e in s.table ==> ContactOrder.Ordered(s.contacts, s.table[e].contacts, false)
  }

  /** Windows may change as long as the lists stay in order. */
  lemma IndexedReordered(s: State, t: State, pairs: Pairs, all: set<Ref>)
    requires Indexed(s, pairs, all) && t.table == s.table && t.contactList == s.contactList && InOrder(t)
    ensures Indexed(t, pairs, all)
  {
    hide ContactOrder.Ordered;
    forall e | e in t.table ensures EntrySound(t.contacts, t.table[e]) {
      assert EntrySound(s.contacts, s.table[e]);
    }
  }

  lemma IndexedInOrder(s: State, pairs: Pairs, all: set<Ref>)
    requires Indexed(s, pairs, all)
    ensures InOrder(s)
  {
    hide ContactOrder.Ordered;
    forall e | e in s.table ensures ContactOrder.Ordered(s.contacts, s.table[e].contacts, false) {
      assert EntrySound(s.contacts, s.table[e]);
    }
  }

  lemma InOrderKeeps(s: State, t: State)
    requires InOrder(s) && SameWindows(s.contacts, t.contacts) && t.table == s.table && t.contactList == s.contactList
    ensures InOrder(t)
  {
    hide ContactOrder.Ordered, SameWindows;
    OrderedKeeps(s.contacts, t.contacts, s.contactList, true);
    forall e | e in t.table ensures ContactOrder.Ordered(t.contacts, t.table[e].contacts, false) {
      OrderedKeeps(s.contacts, t.contacts, s.table[e].contacts, false);
    }
  }

  // ---- Entering contacts mends no list

  lemma AddEntryOrder(heap: ContactMap, table: Table, eid: string, c: Ref, e: string)
    requires c in heap && TableListed(heap, table) && e in table
    requires e in AddEntry(heap, table, eid, c)
    requires ContactOrder.Ordered(heap, AddEntry(heap, table, eid, c)[e].contacts, false)
    ensures ContactOrder.Ordered(heap, table[e].contacts, false)
  {
    hide ContactOrder.Ordered, ContactOrder.Insert;
    if e == eid {
      ContactOrder.InsertedOrder(heap, table[e].contacts, c, false);
    }
  }

  lemma {:induction false} AddEntriesOrder(heap: ContactMap, table: Table, eids: seq<string>, c: Ref, e: string)
    requires c in heap && TableListed(heap, table) && e in table
    ensures e in AddEntries(heap, table, eids, c)
    ensures ContactOrder.Ordered(heap, AddEntries(heap, table, eids, c)[e].contacts, false)
            ==> ContactOrder.Ordered(heap, table[e].contacts, false)
  {
    hide ContactOrder.Ordered, ContactOrder.Insert, TableListed;
    if eids != [] {
      var before := eids[..|eids| - 1];
      AddEntriesOrder(heap, table, before, c, e);
      var t := AddEntries(heap, table, before, c);
      if ContactOrder.Ordered(heap, AddEntry(heap, t, eids[|eids| - 1], c)[e].contacts, false) {
        AddEntryOrder(heap, t, eids[|eids| - 1], c, e);
      }
    }
  }

  lemma AddContactOrder(s: State, node: Node, c: Ref)
    requires Linked(s) && c in s.contacts && InOrder(AddContact(s, node, c))
    ensures InOrder(s)
  {
    hide ContactOrder.Ordered, ContactOrder.Insert, EidsOf, AddEntries, Recalculate;
    var r := AddContact(s, node, c);
    RecalculateAlike(s.contacts[c]);
    assert SameWindows(r.contacts, s.contacts);
    OrderedKeeps(r.contacts, s.contacts, r.contactList, true);
    ContactOrder.InsertedOrder(s.contacts, s.contactList, c, true);
    forall e | e in s.table ensures ContactOrder.Ordered(s.contacts, s.table[e].contacts, false) {
      AddEntriesOrder(s.contacts, s.table, EidsOf(node, s.contacts[c]), c, e);
      OrderedKeeps(r.contacts, s.contacts, r.table[e].contacts, false);
    }
  }

  lemma {:induction false} AddContactsOrder(s: State, node: Node, cs: seq<Ref>)
    requires Linked(s) && (forall c :: c in cs ==> c in s.contacts) && InOrder(AddContacts(s, node, cs))
    ensures InOrder(s)
  {
    hide Linked, InOrder, AddContact;
    if cs != [] {
      AddContactOrder(AddContacts(s, node, cs[..|cs| - 1]), node, cs[|cs| - 1]);
      AddContactsOrder(s, node, cs[..|cs| - 1]);
    }
  }

  // ---- Entering and removing contacts

  /** The pairs a node's contacts `cs` are entered under. */
  function PairsOf(heap: ContactMap, node: Node, cs: seq<Ref>): Pairs
    requires forall c :: c in cs ==> c in heap
  {
    set c, e | c in cs && e in EidsOf(node, heap[c]) :: (e, c)
  }

  lemma PairsOfLast(heap: ContactMap, node: Node, cs: seq<Ref>)
    requires cs != [] && forall c :: c in cs ==> c in heap
    ensures PairsOf(heap, node, cs)
            == PairsOf(heap, node, cs[..|cs| - 1]) + Under(EidsOf(node, heap[cs[|cs| - 1]]), cs[|cs| - 1])
  {
    hide EidsOf;
    assert cs == cs[..|cs| - 1] + [cs[|cs| - 1]];
  }

  lemma ElementsLast(cs: seq<Ref>)
    requires cs != []
    ensures ContactOrder.Elements(cs) == ContactOrder.Elements(cs[..|cs| - 1]) + {cs[|cs| - 1]}
  {
    assert cs == cs[..|cs| - 1] + [cs[|cs| - 1]];
  }

  lemma AddContactMeans(s: State, node: Node, c: Ref, pairs: Pairs, all: set<Ref>)
    requires Linked(s) && c in s.contacts && Indexed(s, pairs, all)
    ensures Indexed(AddContact(s, node, c), pairs + Under(EidsOf(node, s.contacts[c]), c), all + {c})
    ensures forall x :: x in s.contacts ==> Alike(AddContact(s, node, c).contacts[x], s.contacts[x])
  {
    hide Represents, ContactOrder.Ordered, ContactOrder.Insert, Under, EidsOf, AddEntries, Recalculate;
    var eids := EidsOf(node, s.contacts[c]);
    var r := AddContact(s, node, c);
    AddEntriesMeans(s.contacts, s.table, pairs, eids, c);
    ContactOrder.InsertMeans(s.contacts, s.contactList, c, true);
    RecalculateAlike(s.contacts[c]);
    RepresentsKeeps(s.contacts, r.contacts, r.table, pairs + Under(eids, c));
    OrderedKeeps(s.contacts, r.contacts, r.contactList, true);
  }

  lemma RecalculateAlike(c: Contact)
    ensures Alike(Recalculate(c), c)
  {
  }

  /** Entering contacts adds their pairs and nothing else. */
  lemma {:induction false} AddContactsMeans(s: State, node: Node, cs: seq<Ref>, pairs: Pairs, all: set<Ref>)
    requires Linked(s) && (forall c :: c in cs ==> c in s.contacts) && Indexed(s, pairs, all)
    ensures Indexed(AddContacts(s, node, cs), pairs + PairsOf(s.contacts, node, cs), all + ContactOrder.Elements(cs))
    ensures forall x :: x in s.contacts ==> Alike(AddContacts(s, node, cs).contacts[x], s.contacts[x])
  {
    hide Linked, Indexed, AddContact, PairsOf, Under, EidsOf, ContactOrder.Elements;
    if cs == [] {
      NoContacts(s.contacts, node);
      assert pairs + {} == pairs && all + {} == all;
    } else {
      var before, c := cs[..|cs| - 1], cs[|cs| - 1];
      AddContactsMeans(s, node, before, pairs, all);
      var t := AddContacts(s, node, before);
      AddContactMeans(t, node, c, pairs + PairsOf(s.contacts, node, before), all + ContactOrder.Elements(before));
      EidsAlike(node, t.contacts[c], s.contacts[c]);
      PairsOfLast(s.contacts, node, cs);
      ElementsLast(cs);
      var under := Under(EidsOf(node, s.contacts[c]), c);
      assert pairs + PairsOf(s.contacts, node, cs) == pairs + PairsOf(s.contacts, node, before) + under;
      assert all + ContactOrder.Elements(cs) == all + ContactOrder.Elements(before) + {c};
    }
  }

  lemma NoContacts(heap: ContactMap, node: Node)
    ensures PairsOf(heap, node, []) == {} && ContactOrder.Elements([]) == {}
  {
  }

  lemma EidsAlike(node: Node, c: Contact, d: Contact)
    requires c.endpoints == d.endpoints
    ensures EidsOf(node, c) == EidsOf(node, d)
  {
  }

  lemma {:induction false} DrainedAlike(c: Contact)
    ensures Alike(Drained(c), c) && Drained(c).active == c.active
    decreases |c.bundles|
  {
    hide Without, PositionOf;
    if c.bundles != [] {
      UnqueueShortens(c);
      DrainedAlike(RemoveBundle(c, c.bundles[0].bundle).1);
    }
  }

  /** Only the bundles, and the node of contacts that are let go, may differ. */
  predicate SameReach(heap: ContactMap, other: ContactMap) {
    forall c :: c in heap ==> c in other && Alike(other[c].(node := heap[c].node), heap[c])
  }

  lemma RemoveContactMeans(s: State, n: Ref, node: Node, c: Ref, drop: bool, pairs: Pairs, all: set<Ref>)
    requires Linked(s) && c in s.contacts && n in s.nodes && Indexed(s, pairs, all)
    ensures var r := RemoveContact(s, n, node, c, drop);
      && Indexed(r, pairs - Under(EidsOf(node, s.contacts[c]), c), all - {c})
      && SameReach(s.contacts, r.contacts)
      && (forall x :: x in s.contacts && x != c ==> r.contacts[x] == s.contacts[x])
      && (forall m :: m in s.nodes && m != n ==> r.nodes[m] == s.nodes[m])
      && (!drop ==> r.contacts == s.contacts && r.nodes == s.nodes)
  {
    hide Represents, ContactOrder.Ordered, ContactOrder.Remove, Under, EidsOf, RemoveEntries, Drained, Linked;
    var eids := EidsOf(node, s.contacts[c]);
    var r := RemoveContact(s, n, node, c, drop);
    LinkedTable(s);
    RemoveEntriesMeans(s.contacts, s.table, pairs, eids, c);
    ContactOrder.RemoveMeans(s.contacts, s.contactList, c, true);
    DrainedAlike(s.contacts[c]);
    RepresentsKeeps(s.contacts, r.contacts, r.table, pairs - Under(eids, c));
    OrderedKeeps(s.contacts, r.contacts, r.contactList, true);
  }

  lemma LinkedTable(s: State)
    requires Linked(s)
    ensures TableListed(s.contacts, s.table)
  {
  }

  /** Taking contacts out removes their pairs and nothing else. */
  lemma {:induction false} RemoveContactsMeans(s: State, n: Ref, node: Node, cs: seq<Ref>, drop: bool, pairs: Pairs,
                                               all: set<Ref>)
    requires Linked(s) && n in s.nodes && (forall c :: c in cs ==> c in s.contacts) && Indexed(s, pairs, all)
    ensures var r := RemoveContacts(s, n, node, cs, drop);
      && Indexed(r, pairs - PairsOf(s.contacts, node, cs), all - ContactOrder.Elements(cs))
      && SameReach(s.contacts, r.contacts)
      && (forall x :: x in s.contacts && x !in cs ==> r.contacts[x] == s.contacts[x])
      && (forall m :: m in s.nodes && m != n ==> r.nodes[m] == s.nodes[m])
      && (!drop ==> r.contacts == s.contacts && r.nodes == s.nodes)
  {
    hide Linked, Indexed, RemoveContact, PairsOf, Under, EidsOf, ContactOrder.Elements, SameReach;
    if cs == [] {
      SameReachNow(s.contacts);
      NoContacts(s.contacts, node);
      assert pairs - {} == pairs && all - {} == all;
    } else {
      var before, c := cs[..|cs| - 1], cs[|cs| - 1];
      RemoveContactsMeans(s, n, node, before, drop, pairs, all);
      var t := RemoveContacts(s, n, node, before, drop);
      var left, others := pairs - PairsOf(s.contacts, node, before), all - ContactOrder.Elements(before);
      RemoveContactMeans(t, n, node, c, drop, left, others);
      SameReachTwice(s.contacts, t.contacts, RemoveContact(t, n, node, c, drop).contacts);
      SameReachAt(s.contacts, t.contacts, c);
      EidsAlike(node, t.contacts[c], s.contacts[c]);
      PairsOfLast(s.contacts, node, cs);
      ElementsLast(cs);
      var under := Under(EidsOf(node, s.contacts[c]), c);
      assert pairs - PairsOf(s.contacts, node, cs) == left - under;
      assert all - ContactOrder.Elements(cs) == others - {c};
      assert cs == before + [c];
    }
  }

  lemma SameReachAt(a: ContactMap, b: ContactMap, c: Ref)
    requires SameReach(a, b) && c in a
    ensures c in b && b[c].endpoints == a[c].endpoints
  {
  }

  lemma SameReachNow(a: ContactMap)
    ensures SameReach(a, a)
  {
  }

  lemma SameReachTwice(a: ContactMap, b: ContactMap, c: ContactMap)
    requires SameReach(a, b) && SameReach(b, c)
    ensures SameReach(a, c)
  {
  }

  // ---- The scan of all nodes

  predicate Reachable(heap: ContactMap, nodes: map<Ref, Node>, list: seq<Ref>) {
    forall n :: n in list ==> n in nodes && forall c :: c in nodes[n].contacts ==> c in heap
  }

  /** What a scan of the nodes finds: node ID, node endpoints and contact
      endpoints, for each of the node's contacts. */
  function Scan(heap: ContactMap, nodes: map<Ref, Node>, list: seq<Ref>): Pairs
    requires Reachable(heap, nodes, list)
  {
    set n, c, e | n in list && c in nodes[n].contacts && e in EidsOf(nodes[n], heap[c]) :: (e, c)
  }

  function ContactsOf(nodes: map<Ref, Node>, list: seq<Ref>): set<Ref>
    requires forall n :: n in list ==> n in nodes
  {
    set n, c | n in list && c in nodes[n].contacts :: c
  }

  /** The scan of a list is that of one node and that of the others. */
  lemma ScanSplit(heap: ContactMap, nodes: map<Ref, Node>, list: seq<Ref>, i: nat)
    requires i < |list| && Reachable(heap, nodes, list)
    ensures var n, rest := list[i], list[..i] + list[i + 1..];
      && Reachable(heap, nodes, rest)
      && Scan(heap, nodes, list) == PairsOf(heap, nodes[n], nodes[n].contacts) + Scan(heap, nodes, rest)
      && ContactsOf(nodes, list) == ContactOrder.Elements(nodes[n].contacts) + ContactsOf(nodes, rest)
  {
    hide EidsOf;
    var n, rest := list[i], list[..i] + list[i + 1..];
    assert list == list[..i] + [n] + list[i + 1..];
    assert forall m :: m in list <==> m == n || m in rest;
  }

  predicate Owned(heap: ContactMap, nodes: map<Ref, Node>, list: seq<Ref>)
    requires Reachable(heap, nodes, list)
  {
    forall n, c :: n in list && c in nodes[n].contacts ==> heap[c].node == Some(n)
  }

  lemma ScanDisjoint(heap: ContactMap, nodes: map<Ref, Node>, n: Ref, rest: seq<Ref>)
    requires Reachable(heap, nodes, [n]) && Reachable(heap, nodes, rest) && n !in rest
    requires Owned(heap, nodes, [n]) && Owned(heap, nodes, rest)
    ensures PairsOf(heap, nodes[n], nodes[n].contacts) !! Scan(heap, nodes, rest)
    ensures ContactOrder.Elements(nodes[n].contacts) !! ContactsOf(nodes, rest)
  {
    hide EidsOf;
    assert n in [n];
    forall c | c in nodes[n].contacts ensures c !in ContactsOf(nodes, rest) {
      assert heap[c].node == Some(n);
    }
  }

  /** Nodes that keep their fields, and contacts that keep their endpoints, are
      scanned alike. */
  lemma ScanFrame(heap: ContactMap, nodes: map<Ref, Node>, heap1: ContactMap, nodes1: map<Ref, Node>, list: seq<Ref>)
    requires Reachable(heap, nodes, list)
    requires forall n :: n in list ==> n in nodes1 && nodes1[n] == nodes[n]
    requires forall n, c :: n in list && c in nodes[n].contacts ==>
               c in heap1 && heap1[c].endpoints == heap[c].endpoints
    ensures Reachable(heap1, nodes1, list)
    ensures Scan(heap1, nodes1, list) == Scan(heap, nodes, list)
    ensures ContactsOf(nodes1, list) == ContactsOf(nodes, list)
  {
    hide EidsOf;
    forall n, c | n in list && c in nodes[n].contacts ensures EidsOf(nodes1[n], heap1[c]) == EidsOf(nodes[n], heap[c]) {
      EidsAlike(nodes[n], heap1[c], heap[c]);
    }
    var now, was := Scan(heap1, nodes1, list), Scan(heap, nodes, list);
    forall p | p in now ensures p in was {
      var n, c, e :| n in list && c in nodes1[n].contacts && e in EidsOf(nodes1[n], heap1[c]) && p == (e, c);
      assert e in EidsOf(nodes[n], heap[c]);
    }
    forall p | p in was ensures p in now {
      var n, c, e :| n in list && c in nodes[n].contacts && e in EidsOf(nodes[n], heap[c]) && p == (e, c);
      assert e in EidsOf(nodes1[n], heap1[c]);
    }
  }
}
