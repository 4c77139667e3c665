/** Insertion into and removal from ordered contact lists
    (components/ud3tn/node.c). */
module ContactOrder {
  import opened Contacts

  function Key(c: Contact, byFrom: bool): nat {
    if byFrom then c.fromMs else c.toMs
  }

  predicate Distinct(list: seq<Ref>) {
    forall i, j :: 0 <= i < j < |list| ==> list[i] != list[j]
  }

  predicate SortedBy(heap: map<Ref, Contact>, list: seq<Ref>, byFrom: bool)
    requires forall x :: x in list ==> x in heap
  {
    forall i, j :: 0 <= i < j < |list| ==> Key(heap[list[i]], byFrom) <= Key(heap[list[j]], byFrom)
  }

  predicate Ordered(heap: map<Ref, Contact>, list: seq<Ref>, byFrom: bool) {
    && (forall x :: x in list ==> x in heap)
    && Distinct(list)
    && SortedBy(heap, list, byFrom)
  }

  function Elements(list: seq<Ref>): set<Ref> {
    set x | x in list
  }

  /** Where `add_contact_to_ordered_list` stops: at the contact itself or the
      first one with a greater key. */
  function StopAt(heap: map<Ref, Contact>, list: seq<Ref>, c: Ref, byFrom: bool): (r: nat)
    requires c in heap && forall x :: x in list ==> x in heap
    ensures r <= |list|
    ensures forall i :: 0 <= i < r ==> list[i] != c && Key(heap[list[i]], byFrom) <= Key(heap[c], byFrom)
    ensures r < |list| ==> list[r] == c || Key(heap[list[r]], byFrom) > Key(heap[c], byFrom)
  {
    if list == [] then 0
    else
      var n := |list| - 1;
      var p := StopAt(heap, list[..n], c, byFrom);
      if p < n then p
      else if list[n] == c || Key(heap[list[n]], byFrom) > Key(heap[c], byFrom) then n
      else n + 1
  }

  function Insert(heap: map<Ref, Contact>, list: seq<Ref>, c: Ref, byFrom: bool): seq<Ref>
    requires c in heap && forall x :: x in list ==> x in heap
  {
    var p := StopAt(heap, list, c, byFrom);
    if p < |list| && list[p] == c then list else list[..p] + [c] + list[p..]
  }

  function IndexOf(list: seq<Ref>, c: Ref): (r: nat)
    ensures r <= |list|
    ensures forall i :: 0 <= i < r ==> list[i] != c
    ensures r < |list| ==> list[r] == c
  {
    if list == [] then 0
    else
      var n := |list| - 1;
      var p := IndexOf(list[..n], c);
      if p < n then p else if list[n] == c then n else n + 1
  }

  function Remove(list: seq<Ref>, c: Ref): seq<Ref> {
    var i := IndexOf(list, c);
    if i < |list| then list[..i] + list[i + 1..] else list
  }

  // ---- What they mean

  /** In an ordered list the early stop does not miss the contact. */
  lemma StopFinds(heap: map<Ref, Contact>, list: seq<Ref>, c: Ref, byFrom: bool)
    requires c in heap && Ordered(heap, list, byFrom) && c in list
    ensures var p := StopAt(heap, list, c, byFrom); p < |list| && list[p] == c
  {
    var k :| 0 <= k < |list| && list[k] == c;
    var p := StopAt(heap, list, c, byFrom);
    assert p <= k;
  }

  lemma InsertedElements(list: seq<Ref>, p: nat, c: Ref)
    requires p <= |list|
    ensures Elements(list[..p] + [c] + list[p..]) == Elements(list) + {c}
  {
    assert list == list[..p] + list[p..];
  }

  lemma InsertedDistinct(list: seq<Ref>, p: nat, c: Ref)
    requires Distinct(list) && c !in list && p <= |list|
    ensures Distinct(list[..p] + [c] + list[p..])
  {
    var r := list[..p] + [c] + list[p..];
    assert forall i :: 0 <= i < |r| ==> r[i] == if i < p then list[i] else if i == p then c else list[i - 1];
  }

  lemma InsertedSorted(heap: map<Ref, Contact>, list: seq<Ref>, p: nat, c: Ref, byFrom: bool)
    requires c in heap && (forall x :: x in list ==> x in heap) && SortedBy(heap, list, byFrom) && p <= |list|
    requires forall i :: 0 <= i < p ==> Key(heap[list[i]], byFrom) <= Key(heap[c], byFrom)
    requires p < |list| ==> Key(heap[list[p]], byFrom) > Key(heap[c], byFrom)
    ensures SortedBy(heap, list[..p] + [c] + list[p..], byFrom)
  {
    hide Key;
    var r := list[..p] + [c] + list[p..];
    forall i | p <= i < |list| ensures Key(heap[c], byFrom) <= Key(heap[list[i]], byFrom) {
      assert Key(heap[list[p]], byFrom) <= Key(heap[list[i]], byFrom);
    }
    forall i, j | 0 <= i < j < |r| ensures Key(heap[r[i]], byFrom) <= Key(heap[r[j]], byFrom) {
      assert r[i] == if i < p then list[i] else if i == p then c else list[i - 1];
      assert r[j] == if j < p then list[j] else if j == p then c else list[j - 1];
    }
  }

  /** Insertion keeps the list ordered and free of duplicates. */
  lemma InsertMeans(heap: map<Ref, Contact>, list: seq<Ref>, c: Ref, byFrom: bool)
    requires c in heap && Ordered(heap, list, byFrom)
    ensures Ordered(heap, Insert(heap, list, c, byFrom), byFrom)
    ensures Elements(Insert(heap, list, c, byFrom)) == Elements(list) + {c}
    ensures |Insert(heap, list, c, byFrom)| == |list| + (if c in list then 0 else 1)
  {
    hide Key, Distinct, SortedBy;
    var p := StopAt(heap, list, c, byFrom);
    if c in list {
      StopFinds(heap, list, c, byFrom);
      assert Elements(list) + {c} == Elements(list);
    } else {
      InsertedDistinct(list, p, c);
      InsertedSorted(heap, list, p, c, byFrom);
      InsertedElements(list, p, c);
    }
  }

  lemma DroppedOrdered(heap: map<Ref, Contact>, list: seq<Ref>, i: nat, byFrom: bool)
    requires Ordered(heap, list, byFrom) && i < |list|
    ensures Ordered(heap, list[..i] + list[i + 1..], byFrom)
  {
    hide Key;
    var r := list[..i] + list[i + 1..];
    assert forall k :: 0 <= k < |r| ==> r[k] == list[if k < i then k else k + 1];
  }

  lemma DroppedElements(list: seq<Ref>, i: nat)
    requires Distinct(list) && i < |list|
    ensures Elements(list[..i] + list[i + 1..]) == Elements(list) - {list[i]}
  {
    assert list == list[..i] + [list[i]] + list[i + 1..];
    assert list[i] !in list[..i] && list[i] !in list[i + 1..];
  }

  lemma RemoveMeans(heap: map<Ref, Contact>, list: seq<Ref>, c: Ref, byFrom: bool)
    requires Ordered(heap, list, byFrom)
    ensures Ordered(heap, Remove(list, c), byFrom)
    ensures Elements(Remove(list, c)) == Elements(list) - {c}
    ensures |Remove(list, c)| == |list| - (if c in list then 1 else 0)
  {
    hide Key, Distinct, SortedBy;
    var i := IndexOf(list, c);
    if i < |list| {
      DroppedOrdered(heap, list, i, byFrom);
      DroppedElements(list, i);
    }
  }

  /** A list out of order is not put in order by insertion. */
  lemma InsertedOrder(heap: map<Ref, Contact>, list: seq<Ref>, c: Ref, byFrom: bool)
    requires c in heap && (forall x :: x in list ==> x in heap) && Ordered(heap, Insert(heap, list, c, byFrom), byFrom)
    ensures Ordered(heap, list, byFrom)
  {
    hide Ordered;
    var p := StopAt(heap, list, c, byFrom);
    var r := Insert(heap, list, c, byFrom);
    if r != list {
      assert r[..p] + r[p + 1..] == list;
      DroppedOrdered(heap, r, p, byFrom);
    }
  }

  /** Adding a listed contact again lists it twice if and only if a contact in
      front of it has a greater key, as after it was retimed in place. */
  lemma ListedTwiceExactly(heap: map<Ref, Contact>, list: seq<Ref>, c: Ref, byFrom: bool)
    requires c in heap && (forall x :: x in list ==> x in heap) && Distinct(list) && c in list
    ensures !Distinct(Insert(heap, list, c, byFrom))
            <==> exists i :: 0 <= i < IndexOf(list, c) && Key(heap[list[i]], byFrom) > Key(heap[c], byFrom)
  {
    hide Key;
    var p, k := StopAt(heap, list, c, byFrom), IndexOf(list, c);
    assert k < |list| && list[k] == c && p <= k;
    if p < k {
      assert list[p] != c && Key(heap[list[p]], byFrom) > Key(heap[c], byFrom);
      TwiceThere(list, p, k);
    }
  }

  lemma TwiceThere(list: seq<Ref>, p: nat, k: nat)
    requires p < k < |list|
    ensures !Distinct(list[..p] + [list[k]] + list[p..])
  {
    var r := list[..p] + [list[k]] + list[p..];
    assert r[p] == list[k] && r[k + 1] == list[k];
  }

  // ---- The loops

  /** `add_contact_to_ordered_list` */
  method AddContactToOrderedList(heap: map<Ref, Contact>, list: seq<Ref>, c: Ref, byFrom: bool)
    returns (added: bool, r: seq<Ref>)
    requires c in heap && forall x :: x in list ==> x in heap
    ensures r == Insert(heap, list, c, byFrom)
    ensures added <==> |r| != |list|
  {
    hide Key;
    var i := 0;
    while i < |list|
      invariant 0 <= i <= |list|
      invariant forall k :: 0 <= k < i ==> list[k] != c && Key(heap[list[k]], byFrom) <= Key(heap[c], byFrom)
    {
      if list[i] == c {
        assert i == StopAt(heap, list, c, byFrom);
        return false, list;
      }
      if Key(heap[list[i]], byFrom) > Key(heap[c], byFrom) {
        break;
      }
      i := i + 1;
    }
    assert i == StopAt(heap, list, c, byFrom);
    added, r := true, list[..i] + [c] + list[i..];
  }

  /** `remove_contact_from_list` */
  method RemoveContactFromList(list: seq<Ref>, c: Ref) returns (removed: bool, r: seq<Ref>)
    ensures r == Remove(list, c)
    ensures removed <==> c in list
  {
    for i := 0 to |list|
      invariant forall k :: 0 <= k < i ==> list[k] != c
    {
      if list[i] == c {
        assert i == IndexOf(list, c);
        return true, list[..i] + list[i + 1..];
      }
    }
    removed, r := false, list;
  }
}
