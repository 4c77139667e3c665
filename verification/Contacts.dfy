/** Contacts and nodes of the contact plan (struct contact and struct node of
    include/ud3tn/node.h) as records behind references, and the capacity
    accounting of components/ud3tn/node.c and components/ud3tn/router.c. */
module Contacts {
  import opened Octets
  import opened EndpointList

  /** A pointer to a contact, a node or a bundle. */
  type Ref = nat

  /** A bundle queued in a contact, with its size and routing priority (0 to 2). */
  datatype Queued = Queued(bundle: Ref, size: nat, priority: nat)

  datatype Contact = Contact(node: Option<Ref>, fromMs: nat, toMs: nat, bitrate: nat,
                             total: nat, p0: int, p1: int, p2: int,
                             endpoints: seq<Endpoint>, bundles: seq<Queued>, active: bool)

  datatype Node = Node(eid: string, address: Option<string>, endpoints: seq<Endpoint>, contacts: seq<Ref>)

  predicate Overlap(a: Contact, b: Contact) {
    a.fromMs < b.toMs && a.toMs > b.fromMs
  }

  /** What `int32_t` arithmetic leaves of a number. */
  function ToInt32(x: int): int {
    var m := x % TWO_32;
    if m >= 0x8000_0000 then m - TWO_32 else m
  }

  function CapacityAt(c: Contact, priority: nat): int {
    if priority == 1 then c.p1 else if priority == 2 then c.p2 else c.p0
  }

  // ---- Total capacity

  /** The window in seconds, rounded, in 64-bit arithmetic. */
  function DurationS(c: Contact): nat {
    (c.toMs - c.fromMs + 500) % TWO_64 / 1000
  }

  function WrappedProduct(c: Contact): nat {
    DurationS(c) * c.bitrate % TWO_64
  }

  /** The overflow and range test of `recalculate_contact_capacity`. */
  predicate CountsAsInfinite(c: Contact) {
    || (DurationS(c) != 0 && WrappedProduct(c) / DurationS(c) != c.bitrate)
    || WrappedProduct(c) >= INT32_MAX
  }

  function Recalculate(c: Contact): Contact {
    if CountsAsInfinite(c) then c.(total := INT32_MAX, p0 := INT32_MAX, p1 := INT32_MAX, p2 := INT32_MAX)
    else
      var difference := ToInt32(WrappedProduct(c) - ToInt32(c.total));
      c.(total := WrappedProduct(c), p0 := ToInt32(c.p0 + difference),
         p1 := ToInt32(c.p1 + difference), p2 := ToInt32(c.p2 + difference))
  }

  // ---- Queued bundles

  function PositionOf(bundles: seq<Queued>, bundle: Ref): (r: nat)
    ensures r <= |bundles|
    ensures forall i :: 0 <= i < r ==> bundles[i].bundle != bundle
    ensures r < |bundles| ==> bundles[r].bundle == bundle
  {
    if bundles == [] then 0
    else
      var p := PositionOf(bundles[..|bundles| - 1], bundle);
      if p < |bundles| - 1 then p
      else if bundles[|bundles| - 1].bundle == bundle then |bundles| - 1
      else |bundles|
  }

  function Without(bundles: seq<Queued>, bundle: Ref): seq<Queued> {
    if bundles == [] then []
    else
      var last := bundles[|bundles| - 1];
      Without(bundles[..|bundles| - 1], bundle) + (if last.bundle == bundle then [] else [last])
  }

  /** The remaining capacities after `size` octets less at the bundle's priority
      and below; a bundle put back is a negative size. */
  function Charged(c: Contact, size: int, priority: nat): Contact {
    c.(p0 := ToInt32(c.p0 - size),
       p1 := if priority > 0 then ToInt32(c.p1 - size) else c.p1,
       p2 := if priority > 0 && priority != 1 then ToInt32(c.p2 - size) else c.p2)
  }

  /** `router_add_bundle_to_contact` */
  function AddBundle(c: Contact, b: Queued): (bool, Contact) {
    if PositionOf(c.bundles, b.bundle) < |c.bundles| then (false, c)
    else
      var queued := c.(bundles := c.bundles + [b]);
      (true, if c.p0 == INT32_MAX then queued else Charged(queued, b.size, b.priority))
  }

  /** `router_remove_bundle_from_contact`; in a contact of infinite capacity it
      goes on to the end of the queue and reports failure. */
  function RemoveBundle(c: Contact, bundle: Ref): (bool, Contact) {
    var i := PositionOf(c.bundles, bundle);
    if i == |c.bundles| then (false, c)
    else if c.p0 == INT32_MAX then (false, c.(bundles := Without(c.bundles, bundle)))
    else
      var b := c.bundles[i];
      (true, Charged(c.(bundles := c.bundles[..i] + c.bundles[i + 1..]), 0 - b.size, b.priority))
  }

  /** What is left of the capacity at a point in time. */
  function Remaining(c: Contact, priority: nat, timeMs: nat): int {
    if timeMs >= c.toMs then 0
    else if timeMs <= c.fromMs then CapacityAt(c, priority)
    else if c.total >= INT32_MAX then INT32_MAX
    else Min(ToInt32(c.total * (c.toMs - timeMs) % TWO_64 / (c.toMs - c.fromMs)), CapacityAt(c, priority))
  }

  /** Contacts and nodes in memory. */
  class Heap {
    var contacts: map<Ref, Contact>
    var nodes: map<Ref, Node>

    method RecalculateContactCapacity(c: Ref)
      requires c in contacts
      modifies this`contacts
      ensures contacts == old(contacts)[c := Recalculate(old(contacts[c]))]
    {
      var contact := contacts[c];
      var duration := (contact.toMs - contact.fromMs + 500) % TWO_64 / 1000;
      var bytes := duration * contact.bitrate % TWO_64;
      if (duration != 0 && bytes / duration != contact.bitrate) || bytes >= INT32_MAX {
        contact := contact.(total := INT32_MAX, p0 := INT32_MAX, p1 := INT32_MAX, p2 := INT32_MAX);
        contacts := contacts[c := contact];
        return;
      }
      var difference := ToInt32(bytes - ToInt32(contact.total));
      contact := contact.(total := bytes);
      contact := contact.(p0 := ToInt32(contact.p0 + difference));
      contact := contact.(p1 := ToInt32(contact.p1 + difference));
      contact := contact.(p2 := ToInt32(contact.p2 + difference));
      contacts := contacts[c := contact];
    }

    method AddBundleToContact(c: Ref, b: Queued) returns (ok: bool)
      requires c in contacts
      modifies this`contacts
      ensures ok == AddBundle(old(contacts[c]), b).0
      ensures contacts == old(contacts)[c := AddBundle(old(contacts[c]), b).1]
    {
      hide ToInt32;
      var contact := contacts[c];
      for i := 0 to |contact.bundles|
        invariant forall k :: 0 <= k < i ==> contact.bundles[k].bundle != b.bundle
      {
        if contact.bundles[i].bundle == b.bundle {
          assert contacts == contacts[c := contacts[c]];
          return false;
        }
      }
      contact := contact.(bundles := contact.bundles + [b]);
      ok := true;
      if contact.p0 != INT32_MAX {
        contact := contact.(p0 := ToInt32(contact.p0 - b.size));
        if b.priority > 0 {
          contact := contact.(p1 := ToInt32(contact.p1 - b.size));
          if b.priority != 1 {
            contact := contact.(p2 := ToInt32(contact.p2 - b.size));
          }
        }
      }
      contacts := contacts[c := contact];
    }

    method RemoveBundleFromContact(c: Ref, bundle: Ref) returns (ok: bool)
      requires c in contacts
      modifies this`contacts
      ensures ok == RemoveBundle(old(contacts[c]), bundle).0
      ensures contacts == old(contacts)[c := RemoveBundle(old(contacts[c]), bundle).1]
    {
      hide ToInt32;
      var contact := contacts[c];
      if PositionOf(contact.bundles, bundle) == |contact.bundles| {
        WithoutAbsent(contact.bundles, bundle);
      }
      var rest, found := Unqueue(contact.bundles, bundle, contact.p0 == INT32_MAX);
      contact := contact.(bundles := rest);
      ok := found.Some?;
      if ok {
        var b := found.value;
        contact := contact.(p0 := ToInt32(contact.p0 + b.size));
        if b.priority > 0 {
          contact := contact.(p1 := ToInt32(contact.p1 + b.size));
          if b.priority != 1 {
            contact := contact.(p2 := ToInt32(contact.p2 + b.size));
          }
        }
      }
      contacts := contacts[c := contact];
    }
  }

  /** One entry of the queue more. */
  lemma UnqueueStep(bundles: seq<Queued>, bundle: Ref, seen: nat)
    requires seen < |bundles|
    ensures var kept := Without(bundles[..seen], bundle);
            var rest := kept + bundles[seen..];
            && rest[|kept|] == bundles[seen]
            && Without(bundles[..seen + 1], bundle)
               == (if bundles[seen].bundle == bundle then kept else kept + [bundles[seen]])
            && rest[..|kept|] + rest[|kept| + 1..] == kept + bundles[seen + 1..]
            && kept + [bundles[seen]] + bundles[seen + 1..] == rest
  {
    assert bundles[..seen + 1][..seen] == bundles[..seen];
    var kept := Without(bundles[..seen], bundle);
    assert (kept + bundles[seen..])[|kept| + 1..] == bundles[seen + 1..];
  }

  /** What the search loop leaves: everything but the bundle where the capacity is
      infinite, everything but its first entry otherwise. */
  predicate Unqueued(bundles: seq<Queued>, bundle: Ref, infinite: bool, rest: seq<Queued>, found: Option<Queued>) {
    if infinite then found == None && rest == Without(bundles, bundle)
    else
      var i := PositionOf(bundles, bundle);
      if i == |bundles| then found == None && rest == bundles
      else found == Some(bundles[i]) && rest == bundles[..i] + bundles[i + 1..]
  }

  lemma UnqueuedHere(bundles: seq<Queued>, bundle: Ref, seen: nat)
    requires seen < |bundles| && bundles[seen].bundle == bundle
    requires forall k :: 0 <= k < seen ==> bundles[k].bundle != bundle
    ensures var kept := Without(bundles[..seen], bundle);
      Unqueued(bundles, bundle, false, kept + bundles[seen + 1..], Some(bundles[seen]))
  {
    hide Without;
    WithoutAbsent(bundles[..seen], bundle);
    assert PositionOf(bundles, bundle) == seen;
  }

  lemma UnqueuedNowhere(bundles: seq<Queued>, bundle: Ref)
    requires forall k :: 0 <= k < |bundles| ==> bundles[k].bundle != bundle
    ensures Unqueued(bundles, bundle, false, Without(bundles, bundle), None)
  {
    WithoutAbsent(bundles, bundle);
  }

  /** The search loop of `router_remove_bundle_from_contact`. */
  method Unqueue(bundles: seq<Queued>, bundle: Ref, infinite: bool)
    returns (rest: seq<Queued>, found: Option<Queued>)
    ensures Unqueued(bundles, bundle, infinite, rest, found)
  {
    hide Without, PositionOf;
    NothingQueued(bundle);
    rest := bundles;
    var i := 0;
    ghost var seen := 0;
    assert bundles[..0] == [];
    while i < |rest|
      invariant 0 <= seen <= |bundles|
      invariant rest == Without(bundles[..seen], bundle) + bundles[seen..]
      invariant i == |Without(bundles[..seen], bundle)|
      invariant !infinite ==> forall k :: 0 <= k < seen ==> bundles[k].bundle != bundle
      decreases |bundles| - seen
    {
      UnqueueStep(bundles, bundle, seen);
      if rest[i].bundle == bundle {
        if !infinite {
          UnqueuedHere(bundles, bundle, seen);
          return rest[..i] + rest[i + 1..], Some(rest[i]);
        }
        rest := rest[..i] + rest[i + 1..];
      } else {
        i := i + 1;
      }
      seen := seen + 1;
    }
    found := None;
    assert bundles[..seen] == bundles && rest == Without(bundles, bundle);
    if !infinite {
      UnqueuedNowhere(bundles, bundle);
    }
  }

  lemma NothingQueued(bundle: Ref)
    ensures Without([], bundle) == []
  {
  }

  /** A queue without the bundle is not changed by taking it out. */
  lemma {:induction false} WithoutAbsent(bundles: seq<Queued>, bundle: Ref)
    requires PositionOf(bundles, bundle) == |bundles|
    ensures Without(bundles, bundle) == bundles
  {
    if bundles != [] {
      WithoutAbsent(bundles[..|bundles| - 1], bundle);
    }
  }
}
