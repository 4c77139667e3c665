/** The operations of components/ud3tn/routing_table.c on lists, memory and hash
    table, proved against their effect on the state. */
module RoutingOperations {
  import opened Octets
  import opened Contacts
  import opened RoutingTable
  import EndpointList
  import ContactUnion
  import ContactDifference
  import ContactOrder
  import HashTable

  class Tables {
    const heap: Heap
    const table: HashTable.Htab<Entry>
    var nodeList: seq<Ref>
    var contactList: seq<Ref>

    ghost function Model(): State
      reads this, heap, table
    {
      State(heap.contacts, heap.nodes, nodeList, contactList, table.contents)
    }

    ghost predicate Valid()
      reads this, heap, table
    {
      table.Valid() && Linked(Model())
    }

    /** `routing_table_init` */
    constructor (memory: Heap, slotCount: nat, hash: string -> nat)
      requires slotCount > 0
      requires forall n, c :: n in memory.nodes && c in memory.nodes[n].contacts ==> c in memory.contacts
      ensures Valid() && heap == memory && fresh(table)
      ensures Model() == State(memory.contacts, memory.nodes, [], [], map[])
    {
      heap := memory;
      table := new HashTable.Htab(slotCount, hash);
      nodeList, contactList := [], [];
    }

    /** `get_node_entry_ptr_by_eid`: the position in the node list. */
    method FindNode(eid: string) returns (i: nat)
      requires Valid()
      ensures i == NodeIndex(Model(), nodeList, eid)
    {
      i := 0;
      while i < |nodeList|
        invariant i <= |nodeList| && forall k :: 0 <= k < i ==> heap.nodes[nodeList[k]].eid != eid
      {
        if heap.nodes[nodeList[i]].eid == eid {
          return;
        }
        i := i + 1;
      }
    }

    /** `routing_table_lookup_eid` */
    method LookupEid(eid: string) returns (r: Option<Entry>)
      requires Valid()
      ensures r == if eid in Model().table then Some(Model().table[eid]) else None
    {
      r := table.Get(eid);
    }

    method AddContactToNodeInHtab(eid: string, c: Ref)
      requires Valid() && c in heap.contacts
      modifies table
      ensures Valid()
      ensures Model() == old(Model()).(table := AddEntry(heap.contacts, old(table.contents), eid, c))
    {
      hide ContactOrder.Insert, HashTable.Htab.Valid;
      ghost var was := table.contents;
      var found := table.Get(eid);
      var entry := Entry(0, []);
      if found == None {
        var added := table.Add(eid, entry);
      } else {
        entry := found.value;
      }
      assert forall x :: x in entry.contacts ==> x in heap.contacts;
      var grown, list := ContactOrder.AddContactToOrderedList(heap.contacts, entry.contacts, c, false);
      var now := Entry(if grown then entry.refCount + 1 else entry.refCount, list);
      table.Write(eid, now);
      assert table.contents == was[eid := now];
      assert table.contents == AddEntry(heap.contacts, was, eid, c);
    }

    method RemoveContactFromNodeInHtab(eid: string, c: Ref)
      requires Valid()
      modifies table
      ensures Valid()
      ensures Model() == old(Model()).(table := RemoveEntry(heap.contacts, old(table.contents), eid, c))
    {
      hide ContactOrder.Remove, HashTable.Htab.Valid;
      var found := table.Get(eid);
      if found == None {
        return;
      }
      var removed, list := ContactOrder.RemoveContactFromList(found.value.contacts, c);
      if removed {
        var count := found.value.refCount - 1;
        if count <= 0 {
          table.Remove(eid);
        } else {
          table.Write(eid, Entry(count, list));
        }
      }
      assert table.contents == RemoveEntry(heap.contacts, old(table.contents), eid, c);
    }

    /** The contact under its node's ID, the node's endpoints and its own. */
    method AddUnderAll(node: Node, c: Ref)
      requires Valid() && c in heap.contacts
      modifies table
      ensures Valid()
      ensures Model() == old(Model()).(table := AddEntries(heap.contacts, old(table.contents),
                                                           EidsOf(node, heap.contacts[c]), c))
    {
      hide AddEntry, HashTable.Htab.Valid;
      var eids := EidsOf(node, heap.contacts[c]);
      for k := 0 to |eids|
        invariant Valid()
        invariant Model() == old(Model()).(table := AddEntries(heap.contacts, old(table.contents), eids[..k], c))
      {
        assert eids[..k + 1][..k] == eids[..k];
        AddContactToNodeInHtab(eids[k], c);
      }
      assert eids[..|eids|] == eids;
    }

    method RemoveUnderAll(eids: seq<string>, c: Ref)
      requires Valid()
      modifies table
      ensures Valid()
      ensures Model() == old(Model()).(table := RemoveEntries(heap.contacts, old(table.contents), eids, c))
    {
      hide RemoveEntry, HashTable.Htab.Valid;
      for k := 0 to |eids|
        invariant Valid()
        invariant Model() == old(Model()).(table := RemoveEntries(heap.contacts, old(table.contents), eids[..k], c))
      {
        assert eids[..k + 1][..k] == eids[..k];
        RemoveContactFromNodeInHtab(eids[k], c);
      }
      assert eids[..|eids|] == eids;
    }

    method EnterContact(node: Node, c: Ref)
      requires Valid() && c in heap.contacts
      modifies this`contactList, heap`contacts, table
      ensures Model() == AddContact(old(Model()), node, c) && table.Valid()
    {
      hide AddEntries, EidsOf, Recalculate, ContactOrder.Insert;
      AddUnderAll(node, c);
      var added, list := ContactOrder.AddContactToOrderedList(heap.contacts, contactList, c, true);
      contactList := list;
      heap.RecalculateContactCapacity(c);
    }

    /** `add_node_to_tables` */
    method EnterNode(n: Ref)
      requires Valid() && n in heap.nodes
      modifies this`contactList, heap`contacts, table
      ensures Valid() && Model() == AddNodeToTables(old(Model()), n)
    {
      hide AddContact, HashTable.Htab.Valid, Linked;
      LinkedContacts(Model(), n);
      var node := heap.nodes[n];
      var cs := node.contacts;
      assert cs[..0] == [];
      for k := 0 to |cs|
        invariant table.Valid() && Model() == AddContacts(old(Model()), node, cs[..k])
      {
        assert cs[..k + 1][..k] == cs[..k];
        EnterContact(node, cs[k]);
      }
      assert cs[..|cs|] == cs;
    }

    /** `reschedule_bundles` where every bundle is dropped. */
    method DrainContact(c: Ref)
      requires Valid() && c in heap.contacts
      modifies heap`contacts
      ensures Valid()
      ensures Model() == old(Model()).(contacts := old(heap.contacts)[c := Drained(old(heap.contacts[c]))])
    {
      hide Linked, RemoveBundle, HashTable.Htab.Valid;
      ghost var was := heap.contacts;
      assert was == was[c := was[c]];
      while heap.contacts[c].bundles != []
        invariant c in heap.contacts && heap.contacts == was[c := heap.contacts[c]]
        invariant Drained(heap.contacts[c]) == Drained(was[c])
        decreases |heap.contacts[c].bundles|
      {
        UnqueueShortens(heap.contacts[c]);
        var ok := heap.RemoveBundleFromContact(c, heap.contacts[c].bundles[0].bundle);
      }
      LinkedContact(old(Model()), c, heap.contacts[c]);
    }

    method LeaveContact(n: Ref, node: Node, c: Ref, drop: bool)
      requires Valid() && n in heap.nodes && c in heap.contacts
      modifies this`contactList, heap, table
      ensures Model() == RemoveContact(old(Model()), n, node, c, drop) && table.Valid()
    {
      hide RemoveEntries, EidsOf, Drained, ContactOrder.Remove;
      RemoveUnderAll(EidsOf(node, heap.contacts[c]), c);
      var removed, list := ContactOrder.RemoveContactFromList(contactList, c);
      RemovedWithin(contactList, c);
      contactList := list;
      if drop {
        var active := heap.contacts[c].active;
        DrainContact(c);
        if active {
          LetGo(n, c);
        }
      }
    }

    /** `remove_node_from_tables` */
    method LeaveNode(n: Ref, drop: bool)
      requires Valid() && n in heap.nodes
      modifies this`contactList, heap, table
      ensures Valid() && Model() == RemoveNodeFromTables(old(Model()), n, drop)
    {
      hide RemoveContact, HashTable.Htab.Valid, Linked;
      LinkedContacts(Model(), n);
      var node := heap.nodes[n];
      var cs := node.contacts;
      assert cs[..0] == [];
      for k := 0 to |cs|
        invariant table.Valid() && Model() == RemoveContacts(old(Model()), n, node, cs[..k], drop)
      {
        assert cs[..k + 1][..k] == cs[..k];
        LeaveContact(n, node, cs[k], drop);
      }
      assert cs[..|cs|] == cs;
    }

    /** An active contact is un-associated from the node that is dropped. */
    method LetGo(n: Ref, c: Ref)
      requires n in heap.nodes && c in heap.contacts
      modifies heap
      ensures heap.contacts == old(heap.contacts)[c := old(heap.contacts[c]).(node := None)]
      ensures var was := old(heap.nodes[n]);
        heap.nodes == old(heap.nodes)[n := was.(contacts := ContactOrder.Remove(was.contacts, c))]
    {
      heap.contacts := heap.contacts[c := heap.contacts[c].(node := None)];
      var removed, list := ContactOrder.RemoveContactFromList(heap.nodes[n].contacts, c);
      heap.nodes := heap.nodes[n := heap.nodes[n].(contacts := list)];
    }

    /** The loop of `routing_table_add_node` that sets the contacts' node. */
    method AssignNode(list: seq<Ref>, n: Ref)
      requires Valid() && forall c :: c in list ==> c in heap.contacts
      modifies heap`contacts
      ensures Model() == old(Model()).(contacts := Assigned(old(heap.contacts), list, n)) && Valid()
    {
      hide Linked, HashTable.Htab.Valid;
      ghost var was := heap.contacts;
      assert list[..0] == [];
      for k := 0 to |list|
        invariant heap.contacts == Assigned(was, list[..k], n)
      {
        var c := list[k];
        AssignedMore(was, list, k, n);
        heap.contacts := heap.contacts[c := heap.contacts[c].(node := Some(n))];
      }
      assert list[..|list|] == list;
      LinkedMemory(old(Model()), heap.contacts);
    }

    /** The loop over contacts whose capacity was modified. */
    method DrainModified(list: seq<Ref>)
      requires Valid() && forall c :: c in list ==> c in heap.contacts
      modifies heap`contacts
      ensures Model() == old(Model()).(contacts := DrainOverbooked(old(heap.contacts), list)) && Valid()
    {
      hide Drained, HashTable.Htab.Valid;
      ghost var was := heap.contacts;
      for k := 0 to |list|
        invariant Valid() && heap.contacts == DrainOverbooked(was, list[..k])
      {
        assert list[..k + 1][..k] == list[..k];
        if heap.contacts[list[k]].p0 < 0 {
          DrainContact(list[k]);
        }
      }
      assert list[..|list|] == list;
    }

    /** The loops over contacts that were trimmed or deleted. */
    method DrainContacts(list: seq<Ref>)
      requires Valid() && forall c :: c in list ==> c in heap.contacts
      modifies heap`contacts
      ensures Model() == old(Model()).(contacts := DrainAll(old(heap.contacts), list)) && Valid()
    {
      hide Drained, HashTable.Htab.Valid;
      ghost var was := heap.contacts;
      for k := 0 to |list|
        invariant Valid() && heap.contacts == DrainAll(was, list[..k])
      {
        assert list[..k + 1][..k] == list[..k];
        DrainContact(list[k]);
      }
      assert list[..|list|] == list;
    }

    method MergeInto(n: Ref, r: Ref)
      requires Valid() && n in heap.nodes && r in heap.nodes
      requires forall c :: c in heap.nodes[n].contacts ==> c !in heap.nodes[r].contacts
      modifies heap
      ensures Valid() && Model() == MergedNode(old(Model()), n, r)
    {
      hide ContactUnion.Union, EndpointList.Union, Assigned, DrainOverbooked, HashTable.Htab.Valid;
      var cur, given := heap.nodes[n], heap.nodes[r];
      var address := cur.address;
      if given.address.Some? && given.address.value != "" {
        address := given.address;
      }
      var endpoints := EndpointList.UnionEndpoints(cur.endpoints, given.endpoints);
      ContactUnion.UnionLists(heap.contacts, heap.nodes, cur.contacts, given.contacts);
      var list, modified := ContactUnion.ContactListUnion(heap, cur.contacts, given.contacts);
      heap.nodes := heap.nodes[n := cur.(address := address, endpoints := endpoints, contacts := list)];
      AssignNode(list, n);
      DrainModified(modified);
    }

    method RemoveFrom(n: Ref, r: Ref)
      requires Valid() && n in heap.nodes && r in heap.nodes
      requires forall c :: c in heap.nodes[n].contacts ==> c !in heap.nodes[r].contacts
      requires ContactOrder.Distinct(heap.nodes[n].contacts)
      modifies heap
      ensures Valid() && Model() == TrimmedNode(old(Model()), n, r)
    {
      hide ContactDifference.Sweep, EndpointList.Difference, DrainAll, HashTable.Htab.Valid;
      var cur, given := heap.nodes[n], heap.nodes[r];
      var endpoints := EndpointList.DifferenceEndpoints(cur.endpoints, given.endpoints);
      SweepWithin(heap.contacts, cur.contacts, given.contacts);
      var list, modified, deleted, changes :=
        ContactDifference.ContactListDifference(heap, cur.contacts, given.contacts);
      heap.nodes := heap.nodes[n := cur.(endpoints := endpoints, contacts := list)];
      DrainContacts(modified);
      DrainContacts(deleted);
    }

    method RoutingTableAddNode(r: Ref) returns (ok: bool)
      requires Valid() && r in heap.nodes
      requires forall n, c :: n in nodeList && c in heap.nodes[n].contacts ==> c !in heap.nodes[r].contacts
      modifies this, heap, table
      ensures Valid() && (ok, Model()) == AddNode(old(Model()), r)
    {
      hide MergedNode, AddNodeToTables, NodeIndex, HashTable.Htab.Valid;
      var i := FindNode(heap.nodes[r].eid);
      if i == |nodeList| {
        if heap.nodes[r].address == None {
          return false;
        }
        nodeList := [r] + nodeList;
        EnterNode(r);
        return true;
      }
      var n := nodeList[i];
      MergeInto(n, r);
      EnterNode(n);
      ok := true;
    }

    method RoutingTableReplaceNode(r: Ref) returns (ok: bool)
      requires Valid() && r in heap.nodes
      modifies this, heap, table
      ensures Valid() && (ok, Model()) == ReplaceNode(old(Model()), r)
    {
      hide AddNodeToTables, RemoveNodeFromTables, NodeIndex, HashTable.Htab.Valid;
      var i := FindNode(heap.nodes[r].eid);
      if i == |nodeList| {
        return false;
      }
      LeaveNode(nodeList[i], true);
      nodeList := nodeList[i := r];
      EnterNode(r);
      ok := true;
    }

    method RoutingTableDeleteNodeByEid(eid: string) returns (ok: bool)
      requires Valid()
      modifies this, heap, table
      ensures Valid() && (ok, Model()) == DeleteNodeByEid(old(Model()), eid)
    {
      hide RemoveNodeFromTables, NodeIndex, HashTable.Htab.Valid;
      var i := FindNode(eid);
      if i == |nodeList| {
        return false;
      }
      var n := nodeList[i];
      nodeList := nodeList[..i] + nodeList[i + 1..];
      LeaveNode(n, true);
      ok := true;
    }

    method RoutingTableDeleteNode(r: Ref) returns (ok: bool)
      requires Valid() && r in heap.nodes
      requires forall n, c :: n in nodeList && c in heap.nodes[n].contacts ==> c !in heap.nodes[r].contacts
      requires forall n :: n in nodeList ==> ContactOrder.Distinct(heap.nodes[n].contacts)
      modifies this, heap, table
      ensures Valid() && (ok, Model()) == DeleteNode(old(Model()), r)
    {
      hide AddNodeToTables, RemoveNodeFromTables, TrimmedNode, NodeIndex, HashTable.Htab.Valid, ContactOrder.Distinct;
      var i := FindNode(heap.nodes[r].eid);
      if i == |nodeList| {
        return false;
      }
      var n := nodeList[i];
      if heap.nodes[r].endpoints == [] && heap.nodes[r].contacts == [] {
        nodeList := nodeList[..i] + nodeList[i + 1..];
        LeaveNode(n, true);
        return true;
      }
      KeepsNodes(Model(), n);
      LeaveNode(n, false);
      RemoveFrom(n, r);
      EnterNode(n);
      ok := true;
    }

    /** `routing_table_delete_contact` */
    method RoutingTableDeleteContact(c: Ref)
      requires Valid() && c in heap.contacts
      requires heap.contacts[c].node.Some? ==> heap.contacts[c].node.value in heap.nodes
      modifies this`contactList, heap, table
      ensures Valid() && Model() == DeleteContact(old(Model()), c)
    {
      hide RemoveEntries, EidsOf, ContactOrder.Remove, HashTable.Htab.Valid;
      var contact := heap.contacts[c];
      if contact.bundles != [] {
        return;
      }
      if contact.node.Some? {
        var n := contact.node.value;
        RemoveUnderAll(EidsOf(heap.nodes[n], contact), c);
        var removed, list := ContactOrder.RemoveContactFromList(heap.nodes[n].contacts, c);
        heap.nodes := heap.nodes[n := heap.nodes[n].(contacts := list)];
      } else {
        RemoveUnderAll(Eids(contact.endpoints), c);
      }
      heap.contacts := heap.contacts[c := contact.(endpoints := [])];
      var removed, list := ContactOrder.RemoveContactFromList(contactList, c);
      contactList := list;
      assert Model() == DeleteContact(old(Model()), c);
    }

    method RoutingTableContactPassed(c: Ref)
      requires Valid()
      requires c in contactList && heap.contacts[c].node.Some? ==> heap.contacts[c].node.value in heap.nodes
      modifies this`contactList, heap, table
      ensures Valid() && Model() == ContactPassed(old(Model()), c)
    {
      hide DeleteContact, HashTable.Htab.Valid;
      var found := false;
      for k := 0 to |contactList|
        invariant !found && c !in contactList[..k]
      {
        if contactList[k] == c {
          found := true;
          break;
        }
        assert contactList[..k + 1] == contactList[..k] + [contactList[k]];
      }
      assert contactList[..|contactList|] == contactList;
      if !found {
        return;
      }
      if heap.contacts[c].node.Some? {
        LinkedContact(Model(), c, heap.contacts[c].(bundles := []));
        heap.contacts := heap.contacts[c := heap.contacts[c].(bundles := [])];
      }
      RoutingTableDeleteContact(c);
    }
  }

  lemma {:induction false} KeepsContactsOf(s: State, n: Ref, node: Node, cs: seq<Ref>)
    requires Linked(s) && n in s.nodes && forall c :: c in cs ==> c in s.contacts
    ensures RemoveContacts(s, n, node, cs, false).nodes == s.nodes
  {
    hide RemoveEntries, EidsOf, ContactOrder.Remove, Linked;
    if cs != [] {
      KeepsContactsOf(s, n, node, cs[..|cs| - 1]);
    }
  }

  lemma KeepsNodes(s: State, n: Ref)
    requires Linked(s) && n in s.nodes
    ensures RemoveNodeFromTables(s, n, false).nodes == s.nodes
  {
    hide RemoveContacts;
    KeepsContactsOf(s, n, s.nodes[n], s.nodes[n].contacts);
  }

  lemma LinkedContacts(s: State, n: Ref)
    requires Linked(s) && n in s.nodes
    ensures forall c :: c in s.nodes[n].contacts ==> c in s.contacts
  {
  }

  lemma AssignedMore(was: ContactMap, list: seq<Ref>, k: nat, n: Ref)
    requires k < |list| && forall c :: c in list ==> c in was
    ensures var h := Assigned(was, list[..k], n);
      Assigned(was, list[..k + 1], n) == h[list[k] := h[list[k]].(node := Some(n))]
  {
    assert list[..k + 1][..k] == list[..k];
  }

  lemma LinkedMemory(s: State, contacts: ContactMap)
    requires Linked(s) && contacts.Keys == s.contacts.Keys
    ensures Linked(s.(contacts := contacts))
  {
  }

  lemma RemovedWithin(list: seq<Ref>, c: Ref)
    ensures forall x :: x in ContactOrder.Remove(list, c) ==> x in list
  {
  }

  lemma LinkedContact(s: State, c: Ref, contact: Contact)
    requires Linked(s) && c in s.contacts
    ensures Linked(s.(contacts := s.contacts[c := contact]))
  {
  }
}
