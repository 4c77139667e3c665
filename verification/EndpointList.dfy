/** The lists of endpoint IDs of components/ud3tn/node.c. An entry is a string
    at an address: lists are ordered by address and free of equal strings. */
module EndpointList {

  datatype Endpoint = Endpoint(address: nat, eid: string)

  function Names(list: seq<Endpoint>): set<string> {
    set i | 0 <= i < |list| :: list[i].eid
  }

  predicate Distinct(list: seq<Endpoint>) {
    forall i, j :: 0 <= i < j < |list| ==> list[i].eid != list[j].eid
  }

  predicate Sorted(list: seq<Endpoint>) {
    forall i, j :: 0 <= i < j < |list| ==> list[i].address <= list[j].address
  }

  /** The first position whose address is greater. */
  function Position(list: seq<Endpoint>, address: nat): (r: nat)
    ensures r <= |list|
    ensures forall i :: 0 <= i < r ==> list[i].address <= address
    ensures r < |list| ==> list[r].address > address
  {
    if list == [] then 0
    else
      var p := Position(list[..|list| - 1], address);
      if p < |list| - 1 then p
      else if list[|list| - 1].address > address then |list| - 1
      else |list|
  }

  function Add(list: seq<Endpoint>, e: Endpoint): seq<Endpoint> {
    if e.eid in Names(list) then list
    else var p := Position(list, e.address); list[..p] + [e] + list[p..]
  }

  function Union(a: seq<Endpoint>, b: seq<Endpoint>): seq<Endpoint> {
    if b == [] then a else Add(Union(a, b[..|b| - 1]), b[|b| - 1])
  }

  /** The first entry with this string, or the end. */
  function IndexOf(list: seq<Endpoint>, eid: string): (r: nat)
    ensures r <= |list|
    ensures forall i :: 0 <= i < r ==> list[i].eid != eid
    ensures r < |list| ==> list[r].eid == eid
  {
    if list == [] then 0
    else
      var p := IndexOf(list[..|list| - 1], eid);
      if p < |list| - 1 then p
      else if list[|list| - 1].eid == eid then |list| - 1
      else |list|
  }

  function Remove(list: seq<Endpoint>, eid: string): seq<Endpoint> {
    var i := IndexOf(list, eid);
    if i < |list| then list[..i] + list[i + 1..] else list
  }

  function Difference(a: seq<Endpoint>, b: seq<Endpoint>): seq<Endpoint> {
    if b == [] then a else Remove(Difference(a, b[..|b| - 1]), b[|b| - 1].eid)
  }

  // ---- What they mean

  lemma NamesConcat(a: seq<Endpoint>, b: seq<Endpoint>)
    ensures Names(a + b) == Names(a) + Names(b)
  {
    forall n | n in Names(a) ensures n in Names(a + b) {
      var i :| 0 <= i < |a| && a[i].eid == n;
      assert (a + b)[i].eid == n;
    }
    forall n | n in Names(b) ensures n in Names(a + b) {
      var i :| 0 <= i < |b| && b[i].eid == n;
      assert (a + b)[|a| + i].eid == n;
    }
  }

  lemma NamesOfOne(e: Endpoint)
    ensures Names([e]) == {e.eid}
  {
    assert [e][0].eid in Names([e]);
  }

  lemma InsertedNames(list: seq<Endpoint>, p: nat, e: Endpoint)
    requires p <= |list|
    ensures Names(list[..p] + [e] + list[p..]) == Names(list) + {e.eid}
  {
    hide Names;
    NamesConcat(list[..p] + [e], list[p..]);
    NamesConcat(list[..p], [e]);
    NamesConcat(list[..p], list[p..]);
    NamesOfOne(e);
    assert list[..p] + list[p..] == list;
  }

  lemma InsertedDistinct(list: seq<Endpoint>, p: nat, e: Endpoint)
    requires p <= |list| && Distinct(list) && e.eid !in Names(list)
    ensures Distinct(list[..p] + [e] + list[p..])
  {
    var r := list[..p] + [e] + list[p..];
    assert forall i :: 0 <= i < |r| ==> r[i] == if i < p then list[i] else if i == p then e else list[i - 1];
    assert forall i :: 0 <= i < |list| ==> list[i].eid != e.eid;
  }

  lemma InsertedSorted(list: seq<Endpoint>, e: Endpoint)
    requires Sorted(list)
    ensures var p := Position(list, e.address); Sorted(list[..p] + [e] + list[p..])
  {
    var p := Position(list, e.address);
    var r := list[..p] + [e] + list[p..];
    assert forall i :: p <= i < |list| ==> list[p].address <= list[i].address;
    assert forall i :: 0 <= i < |r| ==> r[i] == if i < p then list[i] else if i == p then e else list[i - 1];
  }

  lemma AddMeans(list: seq<Endpoint>, e: Endpoint)
    ensures Names(Add(list, e)) == Names(list) + {e.eid}
    ensures Distinct(list) ==> Distinct(Add(list, e))
    ensures Sorted(list) ==> Sorted(Add(list, e))
  {
    hide Distinct, Sorted, Position, Names;
    if e.eid !in Names(list) {
      var p := Position(list, e.address);
      InsertedNames(list, p, e);
      if Distinct(list) {
        InsertedDistinct(list, p, e);
      }
      if Sorted(list) {
        InsertedSorted(list, e);
      }
    }
  }

  lemma {:induction false} UnionMeans(a: seq<Endpoint>, b: seq<Endpoint>)
    ensures Names(Union(a, b)) == Names(a) + Names(b)
    ensures Distinct(a) ==> Distinct(Union(a, b))
    ensures Sorted(a) ==> Sorted(Union(a, b))
  {
    hide Add, Distinct, Sorted;
    if b == [] {
      assert Names(b) == {};
    } else {
      UnionMeans(a, b[..|b| - 1]);
      AddMeans(Union(a, b[..|b| - 1]), b[|b| - 1]);
      NamesOfLast(b);
    }
  }

  lemma NamesOfLast(b: seq<Endpoint>)
    requires b != []
    ensures Names(b) == Names(b[..|b| - 1]) + {b[|b| - 1].eid}
  {
    hide Names;
    var n := |b| - 1;
    assert b == b[..n] + [b[n]];
    NamesConcat(b[..n], [b[n]]);
    NamesOfOne(b[n]);
  }

  lemma DroppedNames(list: seq<Endpoint>, i: nat)
    requires i < |list| && Distinct(list)
    ensures Names(list[..i] + list[i + 1..]) == Names(list) - {list[i].eid}
  {
    var before, after := list[..i], list[i + 1..];
    assert list == before + [list[i]] + after;
    NamesConcat(before + [list[i]], after);
    NamesConcat(before, [list[i]]);
    NamesConcat(before, after);
    NamesOfOne(list[i]);
    assert list[i].eid !in Names(before);
    assert forall k :: 0 <= k < |after| ==> after[k] == list[i + 1 + k];
    assert list[i].eid !in Names(after);
  }

  lemma DroppedOrder(list: seq<Endpoint>, i: nat)
    requires i < |list|
    ensures Distinct(list) ==> Distinct(list[..i] + list[i + 1..])
    ensures Sorted(list) ==> Sorted(list[..i] + list[i + 1..])
  {
    var r := list[..i] + list[i + 1..];
    assert forall k :: 0 <= k < |r| ==> r[k] == list[if k < i then k else k + 1];
  }

  lemma RemoveMeans(list: seq<Endpoint>, eid: string)
    requires Distinct(list)
    ensures Names(Remove(list, eid)) == Names(list) - {eid}
    ensures Distinct(Remove(list, eid))
    ensures Sorted(list) ==> Sorted(Remove(list, eid))
  {
    hide Distinct, Sorted, IndexOf;
    var i := IndexOf(list, eid);
    if i < |list| {
      DroppedNames(list, i);
      DroppedOrder(list, i);
    }
  }

  lemma {:induction false} DifferenceMeans(a: seq<Endpoint>, b: seq<Endpoint>)
    requires Distinct(a)
    ensures Names(Difference(a, b)) == Names(a) - Names(b)
    ensures Distinct(Difference(a, b))
    ensures Sorted(a) ==> Sorted(Difference(a, b))
  {
    hide Remove, Distinct, Sorted;
    if b == [] {
      assert Names(b) == {};
    } else {
      DifferenceMeans(a, b[..|b| - 1]);
      RemoveMeans(Difference(a, b[..|b| - 1]), b[|b| - 1].eid);
      NamesOfLast(b);
    }
  }

  // ---- The loops

  /** `endpoint_list_add` */
  method AddEndpoint(list: seq<Endpoint>, e: Endpoint) returns (r: seq<Endpoint>)
    ensures r == Add(list, e)
  {
    var target: int := -1;
    var i := 0;
    while i < |list|
      invariant 0 <= i <= |list|
      invariant forall k :: 0 <= k < i ==> list[k].eid != e.eid
      invariant target == -1 ==> forall k :: 0 <= k < i ==> list[k].address <= e.address
      invariant target != -1 ==> 0 <= target < i && list[target].address > e.address
                                 && forall k :: 0 <= k < target ==> list[k].address <= e.address
    {
      if list[i].eid == e.eid {
        return list;
      }
      if list[i].address > e.address && target == -1 {
        target := i;
      }
      i := i + 1;
    }
    if target == -1 {
      target := |list|;
    }
    assert target == Position(list, e.address);
    r := list[..target] + [e] + list[target..];
  }

  /** `endpoint_list_remove` */
  method RemoveEndpoint(list: seq<Endpoint>, eid: string) returns (r: seq<Endpoint>)
    ensures r == Remove(list, eid)
  {
    for i := 0 to |list|
      invariant forall k :: 0 <= k < i ==> list[k].eid != eid
    {
      if list[i].eid == eid {
        assert i == IndexOf(list, eid);
        return list[..i] + list[i + 1..];
      }
    }
    r := list;
  }

  /** `endpoint_list_union` */
  method UnionEndpoints(a: seq<Endpoint>, b: seq<Endpoint>) returns (r: seq<Endpoint>)
    ensures r == Union(a, b)
  {
    hide Add;
    r := a;
    for i := 0 to |b|
      invariant r == Union(a, b[..i])
    {
      r := AddEndpoint(r, b[i]);
      assert b[..i + 1][..i] == b[..i];
    }
    assert b[..|b|] == b;
  }

  /** `endpoint_list_difference` */
  method DifferenceEndpoints(a: seq<Endpoint>, b: seq<Endpoint>) returns (r: seq<Endpoint>)
    ensures r == Difference(a, b)
  {
    hide Remove;
    r := a;
    for i := 0 to |b|
      invariant r == Difference(a, b[..i])
    {
      r := RemoveEndpoint(r, b[i].eid);
      assert b[..i + 1][..i] == b[..i];
    }
    assert b[..|b|] == b;
  }
}
