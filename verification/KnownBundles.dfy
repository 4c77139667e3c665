/** The list of known bundles: ordered by deadline, searched with an early exit
    and cleaned of expired entries while it is searched
    (components/ud3tn/bundle_processor.c, components/ud3tn/bundle.c). */
module KnownBundles {
  datatype ParentId = ParentId(version: nat, source: string, creationMs: nat, sequence: nat)

  datatype BundleId = BundleId(parent: ParentId, offset: nat, length: nat)

  datatype Entry = Entry(id: BundleId, deadline: nat)

  predicate Sorted(list: seq<Entry>) {
    forall i, j :: 0 <= i < j < |list| ==> list[i].deadline <= list[j].deadline
  }

  /** The search loop of `bundle_record_add_and_check_known`: whether the
      identity is found, and the list afterwards. */
  function Search(list: seq<Entry>, e: Entry, now: nat): (bool, seq<Entry>) {
    if list == [] then (false, [e])
    else if list[0].id == e.id then (true, list)
    else if list[0].deadline < now then Search(list[1..], e, now)
    else if list[0].deadline > e.deadline then (false, [e] + list)
    else
      var (found, rest) := Search(list[1..], e, now);
      (found, [list[0]] + rest)
  }

  /** `bundle_record_add_and_check_known`: expired bundles count as known. */
  function Record(list: seq<Entry>, e: Entry, now: nat): (bool, seq<Entry>) {
    if e.deadline < now then (true, list) else Search(list, e, now)
  }

  /** `bundle_add_reassembled_as_known`: insertion behind all entries with the
      same or an earlier deadline. */
  function Insert(list: seq<Entry>, e: Entry): seq<Entry> {
    if list == [] || list[0].deadline > e.deadline then [e] + list
    else [list[0]] + Insert(list[1..], e)
  }

  /** `bundle_reassembled_is_known` */
  function FindReassembled(list: seq<Entry>, parent: ParentId, total: nat, deadline: nat): bool {
    list != [] &&
    (list[0].id == BundleId(parent, 0, total) ||
     (list[0].deadline <= deadline && FindReassembled(list[1..], parent, total, deadline)))
  }

  // ---- Order is kept

  lemma SortedCons(e: Entry, list: seq<Entry>)
    requires Sorted(list)
    requires forall i :: 0 <= i < |list| ==> e.deadline <= list[i].deadline
    ensures Sorted([e] + list)
  {
  }

  lemma {:induction false} SearchBounds(list: seq<Entry>, e: Entry, now: nat, low: nat)
    requires e.deadline >= low && forall i :: 0 <= i < |list| ==> list[i].deadline >= low
    ensures forall x :: x in Search(list, e, now).1 ==> x.deadline >= low
  {
    if list != [] {
      SearchBounds(list[1..], e, now, low);
    }
  }

  lemma {:induction false} SearchKeepsOrder(list: seq<Entry>, e: Entry, now: nat)
    requires Sorted(list)
    ensures Sorted(Search(list, e, now).1)
  {
    if list != [] && list[0].id != e.id {
      if list[0].deadline < now {
        SearchKeepsOrder(list[1..], e, now);
      } else if list[0].deadline > e.deadline {
        SortedCons(e, list);
      } else {
        SearchKeepsOrder(list[1..], e, now);
        SearchBounds(list[1..], e, now, list[0].deadline);
        var rest := Search(list[1..], e, now).1;
        assert forall i :: 0 <= i < |rest| ==> rest[i] in rest;
        SortedCons(list[0], rest);
      }
    }
  }

  lemma {:induction false} InsertContents(list: seq<Entry>, e: Entry, x: Entry)
    ensures x in Insert(list, e) <==> x == e || x in list
  {
    if list != [] && list[0].deadline <= e.deadline {
      InsertContents(list[1..], e, x);
    }
  }

  lemma {:induction false} InsertKeepsOrder(list: seq<Entry>, e: Entry)
    requires Sorted(list)
    ensures Sorted(Insert(list, e))
  {
    if list == [] || list[0].deadline > e.deadline {
      SortedCons(e, list);
    } else {
      var rest := Insert(list[1..], e);
      InsertKeepsOrder(list[1..], e);
      forall i | 0 <= i < |rest| ensures list[0].deadline <= rest[i].deadline {
        InsertContents(list[1..], e, rest[i]);
      }
      SortedCons(list[0], rest);
    }
  }

  // ---- What the search answers

  predicate SameDeadline(list: seq<Entry>, e: Entry) {
    forall i :: 0 <= i < |list| && list[i].id == e.id ==> list[i].deadline == e.deadline
  }

  /** In an ordered list where an identity fixes its deadline, the early exit
      never misses an entry: the answer is "known" exactly when an entry with
      the identity is listed. */
  lemma {:induction false} SearchAnswers(list: seq<Entry>, e: Entry, now: nat)
    requires Sorted(list) && SameDeadline(list, e) && now <= e.deadline
    ensures Search(list, e, now).0 <==> e in list
  {
    if list != [] && list[0].id != e.id {
      assert list == [list[0]] + list[1..];
      if list[0].deadline <= e.deadline || list[0].deadline < now {
        SearchAnswers(list[1..], e, now);
      } else {
        assert forall i :: 0 <= i < |list| ==> list[i].deadline > e.deadline;
      }
    }
  }

  /** Whatever the deadlines: the search adds nothing but the searched entry and
      drops nothing but expired entries. */
  lemma {:induction false} SearchKeeps(list: seq<Entry>, e: Entry, now: nat, x: Entry)
    ensures x in Search(list, e, now).1 ==> x == e || x in list
    ensures x in list && x.deadline >= now ==> x in Search(list, e, now).1
  {
    if list != [] && list[0].id != e.id {
      assert list == [list[0]] + list[1..];
      SearchKeeps(list[1..], e, now, x);
    }
  }

  lemma {:induction false} SearchLists(list: seq<Entry>, e: Entry, now: nat)
    requires SameDeadline(list, e)
    ensures e in Search(list, e, now).1
  {
    if list != [] && list[0].id != e.id {
      SearchLists(list[1..], e, now);
    }
  }

  /** Likewise for the search for the original of a fragment. */
  lemma {:induction false} ReassembledAnswers(list: seq<Entry>, e: Entry, total: nat)
    requires Sorted(list) && SameDeadline(list, e) && e.id.offset == 0 && e.id.length == total
    ensures FindReassembled(list, e.id.parent, total, e.deadline) <==> e in list
  {
    if list != [] && list[0].id != e.id {
      assert list == [list[0]] + list[1..];
      if list[0].deadline <= e.deadline {
        ReassembledAnswers(list[1..], e, total);
      } else {
        assert forall i :: 0 <= i < |list| ==> list[i].deadline > e.deadline;
      }
    }
  }

  /** Without fixed deadlines the early exit can miss an entry, and exactly then:
      a listed identity is overlooked when it is listed later than `e` would be
      and another such entry stands before it. */
  lemma {:induction false} SearchMissesExactly(list: seq<Entry>, e: Entry, now: nat, k: nat)
    requires Sorted(list) && now <= e.deadline
    requires k < |list| && list[k].id == e.id
    requires forall i :: 0 <= i < k ==> list[i].id != e.id
    ensures !Search(list, e, now).0 <==>
            list[k].deadline > e.deadline && k > 0 && list[k - 1].deadline > e.deadline
  {
    if k > 0 {
      assert list == [list[0]] + list[1..];
      if list[0].deadline <= e.deadline || list[0].deadline < now {
        SearchMissesExactly(list[1..], e, now, k - 1);
      }
    }
  }

  /** Such a list: the identity is there, is not found, and is listed again. */
  lemma SearchMisses(x: BundleId, y: BundleId)
    requires x != y
    ensures var list, e := [Entry(x, 5), Entry(y, 6)], Entry(y, 4);
      Sorted(list) && Search(list, e, 0) == (false, [e] + list)
  {
  }
}
