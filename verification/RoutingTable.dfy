/** The routing table of components/ud3tn/routing_table.c: the list of nodes, the
    list of all contacts, and the table from endpoint IDs to contacts. */
module RoutingTable {
  import opened Octets
  import opened Contacts
  import EndpointList
  import ContactUnion
  import ContactDifference
  import ContactOrder

  /** struct node_table_entry */
  datatype Entry = Entry(refCount: int, contacts: seq<Ref>)

  type Table = map<string, Entry>
  type ContactMap = map<Ref, Contact>

  datatype State = State(contacts: ContactMap, nodes: map<Ref, Node>, nodeList: seq<Ref>,
                         contactList: seq<Ref>, table: Table)

  /** No list or pointer leads out of the memory. */
  predicate Linked(s: State) {
    && (forall n, c :: n in s.nodes && c in s.nodes[n].contacts ==> c in s.contacts)
    && (forall n :: n in s.nodeList ==> n in s.nodes)
    && (forall c :: c in s.contactList ==> c in s.contacts)
    && TableListed(s.contacts, s.table)
  }

  predicate TableListed(heap: ContactMap, table: Table) {
    forall e, c :: e in table && c in table[e].contacts ==> c in heap
  }

  // ---- Table entries

  /** `add_contact_to_node_in_htab` */
  function AddEntry(heap: ContactMap, table: Table, eid: string, c: Ref): (r: Table)
    requires c in heap && TableListed(heap, table)
    ensures TableListed(heap, r)
  {
    var entry := if eid in table then table[eid] else Entry(0, []);
    var list := ContactOrder.Insert(heap, entry.contacts, c, false);
    table[eid := Entry(if |list| != |entry.contacts| then entry.refCount + 1 else entry.refCount, list)]
  }

  /** `remove_contact_from_node_in_htab` */
  function RemoveEntry(heap: ContactMap, table: Table, eid: string, c: Ref): (r: Table)
    requires TableListed(heap, table)
    ensures TableListed(heap, r)
  {
    if eid !in table || c !in table[eid].contacts then table
    else
      var entry := Entry(table[eid].refCount - 1, ContactOrder.Remove(table[eid].contacts, c));
      if entry.refCount <= 0 then table - {eid} else table[eid := entry]
  }

  function AddEntries(heap: ContactMap, table: Table, eids: seq<string>, c: Ref): (r: Table)
    requires c in heap && TableListed(heap, table)
    ensures TableListed(heap, r)
  {
    if eids == [] then table
    else AddEntry(heap, AddEntries(heap, table, eids[..|eids| - 1], c), eids[|eids| - 1], c)
  }

  function RemoveEntries(heap: ContactMap, table: Table, eids: seq<string>, c: Ref): (r: Table)
    requires TableListed(heap, table)
    ensures TableListed(heap, r)
  {
    if eids == [] then table
    else RemoveEntry(heap, RemoveEntries(heap, table, eids[..|eids| - 1], c), eids[|eids| - 1], c)
  }

  function Eids(list: seq<EndpointList.Endpoint>): (r: seq<string>)
    ensures |r| == |list| && forall i :: 0 <= i < |r| ==> r[i] == list[i].eid
  {
    seq(|list|, i requires 0 <= i < |list| => list[i].eid)
  }

  /** The endpoint IDs a contact of a node is entered under. */
  function EidsOf(node: Node, c: Contact): seq<string> {
    [node.eid] + Eids(node.endpoints) + Eids(c.endpoints)
  }

  // ---- Bundles of a contact

  /** `reschedule_bundles` where every bundle is dropped. */
  function Drained(c: Contact): Contact
    decreases |c.bundles|
  {
    if c.bundles == [] then c
    else
      UnqueueShortens(c);
      Drained(RemoveBundle(c, c.bundles[0].bundle).1)
  }

  lemma UnqueueShortens(c: Contact)
    requires c.bundles != []
    ensures |RemoveBundle(c, c.bundles[0].bundle).1.bundles| < |c.bundles|
  {
    hide Without;
    WithoutShortens(c.bundles, c.bundles[0].bundle);
  }

  lemma {:induction false} WithoutShortens(bundles: seq<Queued>, bundle: Ref)
    ensures |Without(bundles, bundle)| <= |bundles|
    ensures bundles != [] && bundles[0].bundle == bundle ==> |Without(bundles, bundle)| < |bundles|
  {
    if bundles != [] {
      WithoutShortens(bundles[..|bundles| - 1], bundle);
    }
  }

  function DrainAll(heap: ContactMap, list: seq<Ref>): (r: ContactMap)
    requires forall c :: c in list ==> c in heap
    ensures r.Keys == heap.Keys
  {
    if list == [] then heap
    else
      var last := list[|list| - 1];
      var h := DrainAll(heap, list[..|list| - 1]);
      h[last := Drained(h[last])]
  }

  // ---- Nodes in the tables

  function AddContact(s: State, node: Node, c: Ref): (r: State)
    requires Linked(s) && c in s.contacts
    ensures Linked(r) && r.contacts.Keys == s.contacts.Keys && r.nodes == s.nodes && r.nodeList == s.nodeList
  {
    s.(table := AddEntries(s.contacts, s.table, EidsOf(node, s.contacts[c]), c),
       contactList := ContactOrder.Insert(s.contacts, s.contactList, c, true),
       contacts := s.contacts[c := Recalculate(s.contacts[c])])
  }

  /** `add_node_to_tables` up to the contacts `cs`. */
  function AddContacts(s: State, node: Node, cs: seq<Ref>): (r: State)
    requires Linked(s) && forall c :: c in cs ==> c in s.contacts
    ensures Linked(r) && r.contacts.Keys == s.contacts.Keys && r.nodes == s.nodes && r.nodeList == s.nodeList
  {
    if cs == [] then s else AddContact(AddContacts(s, node, cs[..|cs| - 1]), node, cs[|cs| - 1])
  }

  function AddNodeToTables(s: State, n: Ref): (r: State)
    requires Linked(s) && n in s.nodes
    ensures Linked(r) && r.contacts.Keys == s.contacts.Keys && r.nodes == s.nodes && r.nodeList == s.nodeList
  {
    AddContacts(s, s.nodes[n], s.nodes[n].contacts)
  }

  /** A contact of a node that is dropped loses its bundles, and its node while
      it is active. */
  function Dropped(c: Contact): Contact {
    if c.active then Drained(c).(node := None) else Drained(c)
  }

  function RemoveContact(s: State, n: Ref, node: Node, c: Ref, drop: bool): (r: State)
    requires Linked(s) && c in s.contacts && n in s.nodes
    ensures Linked(r) && r.contacts.Keys == s.contacts.Keys && r.nodes.Keys == s.nodes.Keys && r.nodeList == s.nodeList
  {
    var t := s.(table := RemoveEntries(s.contacts, s.table, EidsOf(node, s.contacts[c]), c),
                contactList := ContactOrder.Remove(s.contactList, c));
    if !drop then t
    else
      var list := t.nodes[n].contacts;
      t.(contacts := t.contacts[c := Dropped(t.contacts[c])],
         nodes := if t.contacts[c].active then t.nodes[n := t.nodes[n].(contacts := ContactOrder.Remove(list, c))]
                  else t.nodes)
  }

  /** `remove_node_from_tables` up to the contacts `cs`. */
  function RemoveContacts(s: State, n: Ref, node: Node, cs: seq<Ref>, drop: bool): (r: State)
    requires Linked(s) && n in s.nodes && forall c :: c in cs ==> c in s.contacts
    ensures Linked(r) && r.contacts.Keys == s.contacts.Keys && r.nodes.Keys == s.nodes.Keys && r.nodeList == s.nodeList
  {
    if cs == [] then s
    else RemoveContact(RemoveContacts(s, n, node, cs[..|cs| - 1], drop), n, node, cs[|cs| - 1], drop)
  }

  function RemoveNodeFromTables(s: State, n: Ref, drop: bool): (r: State)
    requires Linked(s) && n in s.nodes
    ensures Linked(r) && r.contacts.Keys == s.contacts.Keys && r.nodes.Keys == s.nodes.Keys && r.nodeList == s.nodeList
  {
    RemoveContacts(s, n, s.nodes[n], s.nodes[n].contacts, drop)
  }

  // ---- Operations

  /** The position of the node with this endpoint ID in the list, or its end. */
  function NodeIndex(s: State, list: seq<Ref>, eid: string): (r: nat)
    requires forall n :: n in list ==> n in s.nodes
    ensures r <= |list|
    ensures forall i :: 0 <= i < r ==> s.nodes[list[i]].eid != eid
    ensures r < |list| ==> s.nodes[list[r]].eid == eid
  {
    if list == [] then 0
    else
      var last := |list| - 1;
      var p := NodeIndex(s, list[..last], eid);
      if p < last then p else if s.nodes[list[last]].eid == eid then last else last + 1
  }

  /** Contacts whose node is set, one after the other. */
  function Assigned(heap: ContactMap, list: seq<Ref>, n: Ref): (r: ContactMap)
    requires forall c :: c in list ==> c in heap
    ensures r.Keys == heap.Keys
    ensures forall c :: c in heap ==> r[c] == if c in list then heap[c].(node := Some(n)) else heap[c]
  {
    if list == [] then heap
    else
      var last := list[|list| - 1];
      var h := Assigned(heap, list[..|list| - 1], n);
      assert list == list[..|list| - 1] + [last];
      h[last := h[last].(node := Some(n))]
  }

  /** Modified contacts that are overbooked lose their bundles. */
  function DrainOverbooked(heap: ContactMap, list: seq<Ref>): (r: ContactMap)
    requires forall c :: c in list ==> c in heap
    ensures r.Keys == heap.Keys
  {
    if list == [] then heap
    else
      var last := list[|list| - 1];
      var h := DrainOverbooked(heap, list[..|list| - 1]);
      if h[last].p0 < 0 then h[last := Drained(h[last])] else h
  }

  /** What the listed node `n` becomes with the given node merged into it. */
  function MergedNode(s: State, n: Ref, r: Ref): (t: State)
    requires Linked(s) && n in s.nodes && r in s.nodes
    ensures Linked(t) && t.nodes.Keys == s.nodes.Keys && t.contacts.Keys == s.contacts.Keys
    ensures t.nodeList == s.nodeList && t.contactList == s.contactList && t.table == s.table
  {
    var cur, given := s.nodes[n], s.nodes[r];
    var u := ContactUnion.Union(s.contacts, s.nodes, cur.contacts, given.contacts);
    ContactUnion.UnionLists(s.contacts, s.nodes, cur.contacts, given.contacts);
    var address := if given.address.Some? && given.address.value != "" then given.address else cur.address;
    var node := cur.(address := address, endpoints := EndpointList.Union(cur.endpoints, given.endpoints),
                     contacts := u.list);
    s.(nodes := s.nodes[n := node], contacts := DrainOverbooked(Assigned(u.heap, u.list, n), u.modified))
  }

  /** `routing_table_add_node` */
  function AddNode(s: State, r: Ref): (bool, State)
    requires Linked(s) && r in s.nodes
  {
    var i := NodeIndex(s, s.nodeList, s.nodes[r].eid);
    if i < |s.nodeList| then
      var n := s.nodeList[i];
      (true, AddNodeToTables(MergedNode(s, n, r), n))
    else if s.nodes[r].address == None then (false, s)
    else (true, AddNodeToTables(s.(nodeList := [r] + s.nodeList), r))
  }

  /** `routing_table_replace_node` */
  function ReplaceNode(s: State, r: Ref): (bool, State)
    requires Linked(s) && r in s.nodes
  {
    var i := NodeIndex(s, s.nodeList, s.nodes[r].eid);
    if i == |s.nodeList| then (false, s)
    else
      var t := RemoveNodeFromTables(s, s.nodeList[i], true);
      (true, AddNodeToTables(t.(nodeList := t.nodeList[i := r]), r))
  }

  /** `routing_table_delete_node_by_eid` */
  function DeleteNodeByEid(s: State, eid: string): (bool, State)
    requires Linked(s)
  {
    var i := NodeIndex(s, s.nodeList, eid);
    if i == |s.nodeList| then (false, s)
    else
      var rest := s.nodeList[..i] + s.nodeList[i + 1..];
      (true, RemoveNodeFromTables(s.(nodeList := rest), s.nodeList[i], true))
  }

  /** What the listed node `n`, which is not in the tables, becomes without the
      endpoints and contacts of the given node. */
  function TrimmedNode(s: State, n: Ref, r: Ref): (t: State)
    requires Linked(s) && n in s.nodes && r in s.nodes
    ensures Linked(t) && t.nodes.Keys == s.nodes.Keys && t.contacts.Keys == s.contacts.Keys
    ensures t.nodeList == s.nodeList && t.contactList == s.contactList && t.table == s.table
  {
    var cur, given := s.nodes[n], s.nodes[r];
    var o := ContactDifference.Sweep(s.contacts, cur.contacts, given.contacts);
    SweepWithin(s.contacts, cur.contacts, given.contacts);
    var node := cur.(endpoints := EndpointList.Difference(cur.endpoints, given.endpoints), contacts := o.list);
    s.(nodes := s.nodes[n := node], contacts := DrainAll(DrainAll(s.contacts + o.changes, o.modified), o.deleted))
  }

  /** The sweep lists, changes and deletes only contacts of the first list. */
  lemma {:induction false} SweepWithin(heap: ContactMap, a: seq<Ref>, b: seq<Ref>)
    requires ContactUnion.Listed(heap, a) && ContactUnion.Listed(heap, b)
    ensures var o := ContactDifference.Sweep(heap, a, b);
      && (forall c :: c in o.list ==> c in a)
      && (forall c :: c in o.modified ==> c in a)
      && (forall c :: c in o.deleted ==> c in a)
      && (forall c :: c in o.changes ==> c in a && ContactDifference.Matches(o.changes[c], heap[c])
                                         && o.changes[c].node == heap[c].node)
    decreases |a| + |b|
  {
    hide EndpointList.Difference;
    if a != [] {
      assert a == [a[0]] + a[1..];
      if b == [] || heap[b[0]].fromMs > heap[a[0]].fromMs {
        SweepWithin(heap, a[1..], b);
      } else if ContactDifference.Matches(heap[b[0]], heap[a[0]]) {
        SweepWithin(heap, a[1..], b[1..]);
      } else {
        SweepWithin(heap, a, b[1..]);
      }
    }
  }

  /** `routing_table_delete_node` */
  function DeleteNode(s: State, r: Ref): (bool, State)
    requires Linked(s) && r in s.nodes
  {
    var i := NodeIndex(s, s.nodeList, s.nodes[r].eid);
    if i == |s.nodeList| then (false, s)
    else if s.nodes[r].endpoints == [] && s.nodes[r].contacts == [] then DeleteNodeByEid(s, s.nodes[r].eid)
    else
      var n := s.nodeList[i];
      (true, AddNodeToTables(TrimmedNode(RemoveNodeFromTables(s, n, false), n, r), n))
  }

  /** `routing_table_delete_contact` */
  function DeleteContact(s: State, c: Ref): (r: State)
    requires Linked(s) && c in s.contacts
    requires s.contacts[c].node.Some? ==> s.contacts[c].node.value in s.nodes
    ensures Linked(r)
  {
    var contact := s.contacts[c];
    if contact.bundles != [] then s
    else
      var eids := if contact.node.Some? then EidsOf(s.nodes[contact.node.value], contact) else Eids(contact.endpoints);
      s.(table := RemoveEntries(s.contacts, s.table, eids, c),
         nodes := if contact.node.None? then s.nodes
                  else var n := contact.node.value;
                       s.nodes[n := s.nodes[n].(contacts := ContactOrder.Remove(s.nodes[n].contacts, c))],
         contactList := ContactOrder.Remove(s.contactList, c),
         contacts := s.contacts[c := contact.(endpoints := [])])
  }

  /** `routing_table_contact_passed` where every bundle is dropped. */
  function ContactPassed(s: State, c: Ref): State
    requires Linked(s)
    requires c in s.contactList && s.contacts[c].node.Some? ==> s.contacts[c].node.value in s.nodes
  {
    if c !in s.contactList then s
    else if s.contacts[c].node.Some? then
      DeleteContact(s.(contacts := s.contacts[c := s.contacts[c].(bundles := [])]), c)
    else DeleteContact(s, c)
  }
}
