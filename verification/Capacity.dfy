/** Laws of the capacity accounting: what is charged is what is queued, when the
    capacity is infinite, how it shrinks with time, and that routes fit. */
module Capacity {
  import opened Octets
  import opened Contacts
  import opened Arithmetic

  // ---- Conservation

  /** Octets of the queued bundles of at least this priority. */
  function QueuedSize(bundles: seq<Queued>, priority: nat): nat {
    if bundles == [] then 0
    else
      var last := bundles[|bundles| - 1];
      QueuedSize(bundles[..|bundles| - 1], priority) + (if last.priority >= priority then last.size else 0)
  }

  /** The remaining capacity at each priority is the total without the bundles
      queued at this priority and above. */
  predicate Accounted(c: Contact) {
    && c.total < INT32_MAX
    && c.p0 == c.total - QueuedSize(c.bundles, 0)
    && c.p1 == c.total - QueuedSize(c.bundles, 1)
    && c.p2 == c.total - QueuedSize(c.bundles, 2)
    && QueuedSize(c.bundles, 0) <= 0x8000_0000
    && forall i :: 0 <= i < |c.bundles| ==> c.bundles[i].priority <= 2
  }

  lemma ToInt32Fits(x: int)
    requires -0x8000_0000 <= x < 0x8000_0000
    ensures ToInt32(x) == x
  {
    if x < 0 {
      assert x % TWO_32 == x + TWO_32;
    }
  }

  lemma {:induction false} QueuedSizeOrder(bundles: seq<Queued>, k: nat, m: nat)
    requires k <= m
    ensures QueuedSize(bundles, m) <= QueuedSize(bundles, k)
  {
    if bundles != [] {
      QueuedSizeOrder(bundles[..|bundles| - 1], k, m);
    }
  }

  lemma QueuedSizeAdd(bundles: seq<Queued>, b: Queued, k: nat)
    ensures QueuedSize(bundles + [b], k) == QueuedSize(bundles, k) + (if b.priority >= k then b.size else 0)
  {
    assert (bundles + [b])[..|bundles|] == bundles;
  }

  lemma {:induction false} QueuedSizeDrop(bundles: seq<Queued>, i: nat, k: nat)
    requires i < |bundles|
    ensures QueuedSize(bundles[..i] + bundles[i + 1..], k)
            == QueuedSize(bundles, k) - (if bundles[i].priority >= k then bundles[i].size else 0)
  {
    var n := |bundles| - 1;
    if i == n {
      assert bundles[..i] + bundles[i + 1..] == bundles[..n];
    } else {
      QueuedSizeDrop(bundles[..n], i, k);
      assert bundles[..n][..i] == bundles[..i] && bundles[..n][i + 1..] == bundles[i + 1..n];
      var shorter := bundles[..i] + bundles[i + 1..n];
      assert bundles[..i] + bundles[i + 1..] == shorter + [bundles[n]];
      QueuedSizeAdd(shorter, bundles[n], k);
    }
  }

  lemma AddKeepsAccount(c: Contact, b: Queued)
    requires Accounted(c) && b.priority <= 2 && QueuedSize(c.bundles, 0) + b.size <= 0x8000_0000
    ensures Accounted(AddBundle(c, b).1)
  {
    hide QueuedSize, ToInt32;
    QueuedSizeAdd(c.bundles, b, 0);
    QueuedSizeAdd(c.bundles, b, 1);
    QueuedSizeAdd(c.bundles, b, 2);
    QueuedSizeOrder(c.bundles, 0, 1);
    QueuedSizeOrder(c.bundles, 0, 2);
    ToInt32Fits(c.p0 - b.size);
    ToInt32Fits(c.p1 - b.size);
    ToInt32Fits(c.p2 - b.size);
  }

  lemma RemoveKeepsAccount(c: Contact, bundle: Ref)
    requires Accounted(c)
    ensures Accounted(RemoveBundle(c, bundle).1)
    ensures QueuedSize(RemoveBundle(c, bundle).1.bundles, 0) <= QueuedSize(c.bundles, 0)
  {
    hide QueuedSize, ToInt32;
    var i := PositionOf(c.bundles, bundle);
    if i < |c.bundles| {
      var b, rest := c.bundles[i], c.bundles[..i] + c.bundles[i + 1..];
      QueuedSizeDrop(c.bundles, i, 0);
      QueuedSizeDrop(c.bundles, i, 1);
      QueuedSizeDrop(c.bundles, i, 2);
      QueuedSizeOrder(rest, 0, 1);
      QueuedSizeOrder(rest, 0, 2);
      QueuedSizeOrder(rest, 1, 2);
      if b.priority >= 1 { ToInt32Fits(c.p1 + b.size); }
      if b.priority >= 2 { ToInt32Fits(c.p2 + b.size); }
      ToInt32Fits(c.p0 + b.size);
    }
  }

  lemma RecalculateKeepsAccount(c: Contact)
    requires Accounted(c) && !CountsAsInfinite(c)
    ensures Accounted(Recalculate(c))
  {
    hide QueuedSize, ToInt32, WrappedProduct, CountsAsInfinite;
    FiniteProduct(c);
    QueuedSizeOrder(c.bundles, 0, 1);
    QueuedSizeOrder(c.bundles, 0, 2);
    ToInt32Fits(c.total);
    var difference := WrappedProduct(c) - c.total;
    ToInt32Fits(difference);
    ToInt32Fits(c.p0 + difference);
    ToInt32Fits(c.p1 + difference);
    ToInt32Fits(c.p2 + difference);
  }

  lemma FiniteProduct(c: Contact)
    requires !CountsAsInfinite(c)
    ensures WrappedProduct(c) < INT32_MAX
  {
  }

  /** What can happen to a contact's capacity and queue. */
  datatype Event = Queue(b: Queued) | Unqueue(bundle: Ref) | Retime(fromMs: nat, toMs: nat, bitrate: nat)

  function Step(c: Contact, e: Event): Contact {
    match e
    case Queue(b) => AddBundle(c, b).1
    case Unqueue(bundle) => RemoveBundle(c, bundle).1
    case Retime(f, t, bitrate) => Recalculate(c.(fromMs := f, toMs := t, bitrate := bitrate))
  }

  function Run(c: Contact, events: seq<Event>): Contact {
    if events == [] then c else Step(Run(c, events[..|events| - 1]), events[|events| - 1])
  }

  /** Queued bundles stay below 2^31 octets, priorities are routing priorities
      and no retiming makes the capacity infinite. */
  predicate StaysFinite(c: Contact, events: seq<Event>) {
    if events == [] then true
    else
      var before := Run(c, events[..|events| - 1]);
      && StaysFinite(c, events[..|events| - 1])
      && match events[|events| - 1]
         case Queue(b) => b.priority <= 2 && QueuedSize(before.bundles, 0) + b.size <= 0x8000_0000
         case Unqueue(_) => true
         case Retime(f, t, bitrate) => !CountsAsInfinite(before.(fromMs := f, toMs := t, bitrate := bitrate))
  }

  /** Through every interleaving of queueing, unqueueing and retiming, nothing of
      a finite capacity is lost or counted twice. */
  lemma {:induction false} CapacityConserved(c: Contact, events: seq<Event>)
    requires Accounted(c) && StaysFinite(c, events)
    ensures Accounted(Run(c, events))
    ensures Run(c, events).p0 <= Run(c, events).p1 <= Run(c, events).p2
  {
    hide AddBundle, RemoveBundle, Recalculate, CountsAsInfinite, QueuedSize;
    if events != [] {
      CapacityConserved(c, events[..|events| - 1]);
      var before := Run(c, events[..|events| - 1]);
      match events[|events| - 1]
      case Queue(b) =>
        AddKeepsAccount(before, b);
      case Unqueue(bundle) =>
        RemoveKeepsAccount(before, bundle);
      case Retime(f, t, bitrate) =>
        RecalculateKeepsAccount(before.(fromMs := f, toMs := t, bitrate := bitrate));
    }
    QueuedSizeOrder(Run(c, events).bundles, 0, 1);
    QueuedSizeOrder(Run(c, events).bundles, 1, 2);
  }

  // ---- Taking a bundle out

  function Ids(bundles: seq<Queued>): set<Ref> {
    set i | 0 <= i < |bundles| :: bundles[i].bundle
  }

  predicate NoneTwice(bundles: seq<Queued>) {
    forall i, j :: 0 <= i < j < |bundles| ==> bundles[i].bundle != bundles[j].bundle
  }

  /** What `recalculate_contact_capacity` makes of an infinite capacity. */
  predicate Infinite(c: Contact) {
    c.total == INT32_MAX && c.p0 == INT32_MAX
  }

  lemma AddKeepsNoneTwice(c: Contact, b: Queued)
    requires NoneTwice(c.bundles)
    ensures NoneTwice(AddBundle(c, b).1.bundles)
    ensures Infinite(c) ==> Infinite(AddBundle(c, b).1)
  {
    hide ToInt32;
  }

  lemma IdsSplit(a: seq<Queued>, b: seq<Queued>)
    ensures Ids(a + b) == Ids(a) + Ids(b)
  {
    forall x | x in Ids(a) + Ids(b) ensures x in Ids(a + b) {
      if x in Ids(a) {
        var i :| 0 <= i < |a| && a[i].bundle == x;
        assert (a + b)[i].bundle == x;
      } else {
        var i :| 0 <= i < |b| && b[i].bundle == x;
        assert (a + b)[|a| + i].bundle == x;
      }
    }
  }

  lemma OneId(b: Queued)
    ensures Ids([b]) == {b.bundle}
  {
    assert [b][0].bundle in Ids([b]);
  }

  lemma {:induction false} WithoutIds(bundles: seq<Queued>, bundle: Ref)
    ensures Ids(Without(bundles, bundle)) == Ids(bundles) - {bundle}
  {
    hide Ids;
    if bundles == [] {
      NoIds();
    } else {
      var before, last := bundles[..|bundles| - 1], bundles[|bundles| - 1];
      WithoutIds(before, bundle);
      assert bundles == before + [last];
      IdsSplit(before, [last]);
      IdsSplit(Without(before, bundle), [last]);
      OneId(last);
      assert Without(before, bundle) + [] == Without(before, bundle);
    }
  }

  lemma NoIds()
    ensures Ids([]) == {}
  {
  }

  lemma DropIds(bundles: seq<Queued>, i: nat)
    requires i < |bundles| && NoneTwice(bundles)
    ensures Ids(bundles[..i] + bundles[i + 1..]) == Ids(bundles) - {bundles[i].bundle}
  {
    var rest := bundles[..i] + bundles[i + 1..];
    assert forall k :: 0 <= k < |rest| ==> rest[k] == bundles[if k < i then k else k + 1];
    forall x | x in Ids(bundles) - {bundles[i].bundle} ensures x in Ids(rest) {
      var k :| 0 <= k < |bundles| && bundles[k].bundle == x;
      assert rest[if k < i then k else k - 1].bundle == x;
    }
  }

  /** Taking a bundle out takes exactly this bundle out of the queue, but it
      reports success if and only if the capacity is finite. */
  lemma RemovalReportsExactly(c: Contact, bundle: Ref)
    requires (Accounted(c) || Infinite(c)) && NoneTwice(c.bundles)
    ensures RemoveBundle(c, bundle).0 <==> bundle in Ids(c.bundles) && c.total < INT32_MAX
    ensures Ids(RemoveBundle(c, bundle).1.bundles) == Ids(c.bundles) - {bundle}
  {
    hide ToInt32, QueuedSize, Without;
    var i := PositionOf(c.bundles, bundle);
    WithoutIds(c.bundles, bundle);
    if i < |c.bundles| {
      DropIds(c.bundles, i);
      assert c.bundles[i].bundle in Ids(c.bundles);
    } else {
      assert Ids(c.bundles) - {bundle} == Ids(c.bundles);
    }
  }

  /** A contact of infinite capacity with one bundle, which is taken out. */
  lemma RemovalReportsFailure()
    ensures Recalculate(ENDLESS) == ENDLESS && RemoveBundle(ENDLESS, 1) == (false, ENDLESS.(bundles := []))
  {
    assert ENDLESS.bundles[..0] == [];
    assert Without(ENDLESS.bundles, 1) == [];
  }

  const ENDLESS := Contact(None, 0, 1000, INT32_MAX, INT32_MAX, INT32_MAX, INT32_MAX, INT32_MAX, [],
                           [Queued(1, 10, 0)], false)

  // ---- Infinite capacity

  function TrueProduct(c: Contact): int {
    (c.toMs - c.fromMs + 500) / 1000 * c.bitrate
  }

  /** The division test detects every wrap-around of the product. */
  lemma DivisionTest(d: nat, b: nat, m: nat)
    requires d > 0 && m > 0
    ensures d * b % m / d == b <==> d * b < m
  {
    ProductOrder(d, 0, b);
    var product: nat := d * b;
    if product < m {
      assert product % m == product;
      ProductQuotient(d, b);
    } else {
      QuotientBelow(product % m, d, b);
    }
  }

  /** A capacity is taken as infinite exactly when it is INT32_MAX octets or
      more, unless rounding a window of nearly 2^64 ms wraps. */
  lemma InfiniteExactly(c: Contact)
    requires c.fromMs <= c.toMs < TWO_64 && c.bitrate < TWO_32
    ensures (CountsAsInfinite(c) <==> TrueProduct(c) >= INT32_MAX)
            <==> (c.toMs - c.fromMs + 500 < TWO_64 || c.bitrate == 0)
  {
    var length := c.toMs - c.fromMs + 500;
    if length < TWO_64 {
      assert length % TWO_64 == length;
      var d := length / 1000;
      assert DurationS(c) == d;
      if d == 0 {
        assert TrueProduct(c) == 0 && WrappedProduct(c) == 0;
      } else {
        DivisionTest(d, c.bitrate, TWO_64);
        if d * c.bitrate < TWO_64 {
          assert WrappedProduct(c) == d * c.bitrate;
        }
      }
    } else {
      assert length % TWO_64 < 500;
      assert DurationS(c) == 0 && WrappedProduct(c) == 0;
      assert length / 1000 >= INT32_MAX;
      if c.bitrate > 0 {
        ProductOrder(length / 1000, 1, c.bitrate);
      }
    }
  }

  // ---- The capacity left at a point in time

  predicate Finite(c: Contact) {
    c.total < INT32_MAX && 0 < c.toMs - c.fromMs < 0x2_0000_0000
  }

  function Scaled(c: Contact, timeMs: nat): nat
    requires Finite(c) && c.fromMs <= timeMs <= c.toMs
  {
    ProductOrder(c.total, 0, c.toMs - timeMs);
    QuotientBounds(c.total * (c.toMs - timeMs), c.toMs - c.fromMs);
    c.total * (c.toMs - timeMs) / (c.toMs - c.fromMs)
  }

  /** The product of the scaling does not wrap and its result fits. */
  lemma ScalingDoesNotWrap(c: Contact, timeMs: nat)
    requires Finite(c) && c.fromMs <= timeMs <= c.toMs
    ensures 0 <= c.total * (c.toMs - timeMs) < TWO_64
    ensures Scaled(c, timeMs) <= c.total
  {
    var length, left, total := c.toMs - c.fromMs, c.toMs - timeMs, c.total;
    ProductOrder(total, left, length);
    ProductOrder(total, left, 0x2_0000_0000);
    QuotientOrder(total * left, total * length, length);
    assert total * length == length * total;
    ProductQuotient(length, total);
  }

  lemma ScaledShrinks(c: Contact, t1: nat, t2: nat)
    requires Finite(c) && c.fromMs <= t1 <= t2 <= c.toMs
    ensures Scaled(c, t2) <= Scaled(c, t1)
  {
    ProductOrder(c.total, c.toMs - t2, c.toMs - t1);
    QuotientOrder(c.total * (c.toMs - t2), c.total * (c.toMs - t1), c.toMs - c.fromMs);
  }

  lemma RemainingScaled(c: Contact, priority: nat, timeMs: nat)
    requires Finite(c) && c.fromMs < timeMs < c.toMs
    ensures Remaining(c, priority, timeMs) == Min(Scaled(c, timeMs), CapacityAt(c, priority))
  {
    hide ToInt32;
    ScalingDoesNotWrap(c, timeMs);
    assert c.total * (c.toMs - timeMs) % TWO_64 == c.total * (c.toMs - timeMs);
    ToInt32Fits(Scaled(c, timeMs));
  }

  lemma RemainingShrinks(c: Contact, priority: nat, t1: nat, t2: nat)
    requires Finite(c) && t1 <= t2 && CapacityAt(c, priority) >= 0
    ensures Remaining(c, priority, t2) <= Remaining(c, priority, t1)
  {
    hide ToInt32, Scaled;
    if c.fromMs < t1 < c.toMs { RemainingScaled(c, priority, t1); }
    if c.fromMs < t2 < c.toMs { RemainingScaled(c, priority, t2); }
    if c.fromMs < t1 && t2 < c.toMs { ScaledShrinks(c, t1, t2); }
  }

  /** What is left of a finite contact never grows with time if and only if it
      was not overbooked: an overbooked one ends at zero, above where it began. */
  lemma RemainingShrinksExactly(c: Contact, priority: nat)
    requires Finite(c)
    ensures (forall t1: nat, t2: nat :: t1 <= t2 ==> Remaining(c, priority, t2) <= Remaining(c, priority, t1))
            <==> CapacityAt(c, priority) >= 0
  {
    hide CapacityAt;
    if CapacityAt(c, priority) >= 0 {
      forall t1: nat, t2: nat | t1 <= t2 ensures Remaining(c, priority, t2) <= Remaining(c, priority, t1) {
        RemainingShrinks(c, priority, t1, t2);
      }
    } else {
      assert Remaining(c, priority, c.fromMs) == CapacityAt(c, priority);
      assert Remaining(c, priority, c.toMs) == 0;
      assert c.fromMs <= c.toMs;
    }
  }

  // ---- Routes

  /** The capacity as the router compares it: an unsigned 32-bit number. */
  function RoutableCapacity(c: Contact, timeMs: nat): nat {
    Remaining(c, 0, timeMs) % TWO_32
  }

  predicate Usable(c: Contact, timeMs: nat, expMs: nat) {
    c.fromMs < expMs && c.toMs > timeMs
  }

  /** `router_calculate_fragment_route`: the contact it settles on. */
  function Route(heap: map<Ref, Contact>, contacts: seq<Ref>, size: nat, preprocessed: nat,
                 timeMs: nat, expMs: nat, excluded: seq<Ref>): Option<Ref>
    requires forall i :: 0 <= i < |contacts| ==> contacts[i] in heap
  {
    if contacts == [] then None
    else
      var c, rest := contacts[0], contacts[1..];
      var capacity := RoutableCapacity(heap[c], timeMs);
      if c in excluded || !Usable(heap[c], timeMs, expMs) then
        Route(heap, rest, size, preprocessed, timeMs, expMs, excluded)
      else if preprocessed != 0 && preprocessed >= capacity then
        Route(heap, rest, size, preprocessed - capacity, timeMs, expMs, excluded)
      else if capacity - preprocessed < size then Route(heap, rest, size, 0, timeMs, expMs, excluded)
      else Some(c)
  }

  method CalculateFragmentRoute(heap: map<Ref, Contact>, contacts: seq<Ref>, size: nat, preprocessed: nat,
                                timeMs: nat, expMs: nat, excluded: seq<Ref>) returns (contact: Option<Ref>)
    requires forall i :: 0 <= i < |contacts| ==> contacts[i] in heap
    ensures contact == Route(heap, contacts, size, preprocessed, timeMs, expMs, excluded)
  {
    hide Usable, RoutableCapacity;
    var left: nat := preprocessed;
    var i := 0;
    assert contacts[0..] == contacts;
    while i < |contacts|
      invariant 0 <= i <= |contacts|
      invariant Route(heap, contacts[i..], size, left, timeMs, expMs, excluded)
                == Route(heap, contacts, size, preprocessed, timeMs, expMs, excluded)
    {
      var c := contacts[i];
      assert contacts[i..][0] == c && contacts[i..][1..] == contacts[i + 1..];
      i := i + 1;
      var skip := false;
      for k := 0 to |excluded|
        invariant skip <==> c in excluded[..k]
      {
        if excluded[k] == c {
          skip := true;
        }
        assert excluded[..k + 1] == excluded[..k] + [excluded[k]];
      }
      assert excluded[..|excluded|] == excluded;
      if skip || !Usable(heap[c], timeMs, expMs) {
        continue;
      }
      var capacity := RoutableCapacity(heap[c], timeMs);
      if left != 0 {
        if left >= capacity {
          left := left - capacity;
          continue;
        }
        capacity := capacity - left;
      }
      if capacity < size {
        left := 0;
        continue;
      }
      return Some(c);
    }
    contact := None;
  }

  /** For a whole bundle the route is the first usable contact with room. */
  lemma {:induction false} RouteIsFirstFit(heap: map<Ref, Contact>, contacts: seq<Ref>, size: nat,
                                           timeMs: nat, expMs: nat)
    requires forall i :: 0 <= i < |contacts| ==> contacts[i] in heap
    ensures var r := Route(heap, contacts, size, 0, timeMs, expMs, []);
            && (r == None <==> forall i :: 0 <= i < |contacts| ==> !FitsIn(heap[contacts[i]], size, timeMs, expMs))
            && (r.Some? ==>
                  exists i :: 0 <= i < |contacts| && r.value == contacts[i]
                              && FitsIn(heap[contacts[i]], size, timeMs, expMs)
                              && forall k :: 0 <= k < i ==> !FitsIn(heap[contacts[k]], size, timeMs, expMs))
  {
    hide Usable, RoutableCapacity;
    if contacts != [] {
      var rest := contacts[1..];
      RouteIsFirstFit(heap, rest, size, timeMs, expMs);
      var r := Route(heap, rest, size, 0, timeMs, expMs, []);
      if FitsIn(heap[contacts[0]], size, timeMs, expMs) {
        assert contacts[0] == Route(heap, contacts, size, 0, timeMs, expMs, []).value;
      } else if r.Some? {
        var i :| 0 <= i < |rest| && r.value == rest[i] && FitsIn(heap[rest[i]], size, timeMs, expMs)
          && forall k :: 0 <= k < i ==> !FitsIn(heap[rest[k]], size, timeMs, expMs);
        assert contacts[i + 1] == rest[i];
        forall k | 0 <= k < i + 1 ensures !FitsIn(heap[contacts[k]], size, timeMs, expMs) {
          if k > 0 { assert contacts[k] == rest[k - 1]; }
        }
      } else {
        forall k | 0 <= k < |contacts| ensures !FitsIn(heap[contacts[k]], size, timeMs, expMs) {
          if k > 0 { assert contacts[k] == rest[k - 1]; }
        }
      }
    }
  }

  predicate FitsIn(c: Contact, size: nat, timeMs: nat, expMs: nat) {
    Usable(c, timeMs, expMs) && RoutableCapacity(c, timeMs) >= size
  }

  /** A contact that was found has room for the bundle if and only if it is not
      overbooked: a negative capacity counts as a huge one. */
  lemma FoundRouteFitsExactly(c: Contact, b: Queued, timeMs: nat, expMs: nat)
    requires FitsIn(c, b.size, timeMs, expMs)
    requires Finite(c) || (c.total == INT32_MAX && c.p0 == INT32_MAX)
    requires -0x8000_0000 <= c.p0 <= INT32_MAX
    ensures b.size <= c.p0 <==> c.p0 >= 0
    ensures c.p0 >= 0 && b.bundle !in (set i | 0 <= i < |c.bundles| :: c.bundles[i].bundle)
            ==> AddBundle(c, b).0 && AddBundle(c, b).1.p0 >= 0
  {
    hide ToInt32, Scaled;
    if c.p0 >= 0 {
      if c.fromMs < timeMs && Finite(c) {
        RemainingScaled(c, 0, timeMs);
      }
      assert 0 <= Remaining(c, 0, timeMs) <= c.p0;
      ToInt32Fits(c.p0 - b.size);
      if b.bundle !in (set i | 0 <= i < |c.bundles| :: c.bundles[i].bundle) {
        assert forall i :: 0 <= i < |c.bundles| ==> c.bundles[i].bundle != b.bundle;
      }
    }
  }

  // ---- Routes of several fragments

  /** The routes `router_get_first_route_frag` finds for fragments of these sizes,
      after `processed` octets of earlier ones. */
  function Packed(heap: map<Ref, Contact>, contacts: seq<Ref>, sizes: seq<nat>, processed: nat, timeMs: nat,
                  expMs: nat): (r: seq<Option<Ref>>)
    requires forall i :: 0 <= i < |contacts| ==> contacts[i] in heap
    ensures |r| == |sizes|
  {
    if sizes == [] then []
    else [Route(heap, contacts, sizes[0], processed, timeMs, expMs, [])]
         + Packed(heap, contacts, sizes[1..], (processed + sizes[0]) % TWO_32, timeMs, expMs)
  }

  /** The loop over the fragments; no route for all of them is no route at all. */
  method RouteFragments(heap: map<Ref, Contact>, contacts: seq<Ref>, sizes: seq<nat>, timeMs: nat, expMs: nat)
    returns (routes: seq<Option<Ref>>, success: bool)
    requires forall i :: 0 <= i < |contacts| ==> contacts[i] in heap
    ensures routes == Packed(heap, contacts, sizes, 0, timeMs, expMs)
    ensures success <==> forall i :: 0 <= i < |routes| ==> routes[i].Some?
  {
    hide Route;
    var processed: nat, found := 0, 0;
    routes := [];
    assert sizes[0..] == sizes;
    for i := 0 to |sizes|
      invariant |routes| == i && Packed(heap, contacts, sizes, 0, timeMs, expMs)
                == routes + Packed(heap, contacts, sizes[i..], processed, timeMs, expMs)
      invariant found <= i && (found == i <==> forall k :: 0 <= k < i ==> routes[k].Some?)
    {
      assert sizes[i..][0] == sizes[i] && sizes[i..][1..] == sizes[i + 1..];
      var r := CalculateFragmentRoute(heap, contacts, sizes[i], processed, timeMs, expMs, []);
      if r.Some? {
        found := found + 1;
      }
      ghost var before := routes;
      routes := routes + [r];
      assert routes[i] == r && forall k :: 0 <= k < i ==> routes[k] == before[k];
      processed := (processed + sizes[i]) % TWO_32;
    }
    assert routes + [] == routes;
    success := found == |sizes|;
  }

  /** A contact of a capacity, with nothing queued. */
  function Vacant(capacity: nat): Contact {
    Contact(None, 1000, 2000, capacity, capacity, capacity, capacity, capacity, [], [], false)
  }

  /** A contact whose room does not suffice is passed over without counting the
      octets that went to it. */
  lemma RoutePassesOver(heap: map<Ref, Contact>, first: Ref, second: Ref, size: nat, processed: nat)
    requires first in heap && second in heap
    requires heap[first].fromMs == heap[second].fromMs == 1000 && heap[first].toMs == heap[second].toMs == 2000
    requires 0 < heap[first].p0 <= INT32_MAX && 0 < heap[second].p0 <= INT32_MAX && size > 0
    ensures var a, b := heap[first].p0, heap[second].p0;
      Route(heap, [first, second], size, processed, 0, 3000, [])
      == if processed + size <= a then Some(first)
         else
           var left := if processed >= a && processed != 0 then processed - a else 0;
           if left + size <= b then Some(second) else None
  {
    hide RoutableCapacity;
    RoomBefore(heap[first]);
    RoomBefore(heap[second]);
    assert [first, second][1..] == [second];
    var a := heap[first].p0;
    RouteLast(heap, second, size, 0);
    if processed >= a {
      RouteLast(heap, second, size, processed - a);
    }
  }

  lemma RoomBefore(c: Contact)
    requires c.fromMs == 1000 && c.toMs == 2000 && 0 < c.p0 <= INT32_MAX
    ensures RoutableCapacity(c, 0) == c.p0
  {
    hide ToInt32;
  }

  lemma RouteLast(heap: map<Ref, Contact>, c: Ref, size: nat, processed: nat)
    requires c in heap && heap[c].fromMs == 1000 && heap[c].toMs == 2000 && 0 < heap[c].p0 <= INT32_MAX && size > 0
    ensures Route(heap, [c], size, processed, 0, 3000, [])
            == if processed + size <= heap[c].p0 then Some(c) else None
  {
    hide RoutableCapacity;
    RoomBefore(heap[c]);
    assert [c][1..] == [];
  }

  /** Both bundles are queued in the contact one after the other, which overbooks it,
      and from then on a bundle of any size has room there. */
  predicate QueuedBeyond(c: Contact, a: Queued, b: Queued, size: nat) {
    var (ok, d) := AddBundle(c, a);
    var (also, e) := AddBundle(d, b);
    ok && d.p0 > 0 && also && Accounted(e) && e.p0 < 0 && FitsIn(e, size, 0, 3000)
  }

  /** Two bundles queued in a contact that has room left for a part of the second. */
  lemma QueuedTwice(c: Contact, a: Queued, b: Queued, size: nat)
    requires Accounted(c) && c.bundles == [] && a.bundle != b.bundle && a.priority <= 2 && b.priority <= 2
    requires c.fromMs == 1000 && c.toMs == 2000 && 0 < size <= INT32_MAX
    requires a.size < c.total < a.size + b.size <= 0x8000_0000
    ensures QueuedBeyond(c, a, b, size)
  {
    hide ToInt32;
    assert c.bundles + [a] == [a];
    QueuedSizeAdd([], a, 0);
    QueuedSizeAdd([a], b, 0);
    AddKeepsAccount(c, a);
    var d := AddBundle(c, a).1;
    AddKeepsAccount(d, b);
    OverbookedFits(AddBundle(d, b).1, size);
  }

  lemma OverbookedFits(c: Contact, size: nat)
    requires -INT32_MAX <= c.p0 < 0 && c.fromMs == 1000 && c.toMs == 2000 && size <= INT32_MAX
    ensures FitsIn(c, size, 0, 3000)
  {
    hide ToInt32;
  }

  /** The first fragment fits the first contact, the second then does not and fits the
      other; the third is taken to fit there too, where it does not. */
  predicate Misjudged(heap: map<Ref, Contact>, a: Ref, b: Ref, x: nat, y: Queued, z: Queued) {
    && a in heap && b in heap && Accounted(heap[b]) && heap[b].bundles == []
    && heap[a].fromMs == heap[b].fromMs == 1000 && heap[a].toMs == heap[b].toMs == 2000
    && x > 0 && z.size > 0 && y.bundle != z.bundle && y.priority <= 2 && z.priority <= 2
    && x <= heap[a].p0 < x + y.size <= INT32_MAX
    && x + y.size - heap[a].p0 + z.size <= heap[b].p0
    && y.size < heap[b].p0 < y.size + z.size <= INT32_MAX
  }

  /** Three fragments over two contacts. The second does not fit behind the first and
      goes to the second contact; what is left of the first contact is not counted
      then, so the third goes to the second contact too, although there is no room
      for both, and from then on everything fits. This happens for example for
      fragments of 900, 900 and 400 octets over contacts of 1500 and 1000. */
  lemma PackingOverbooks(heap: map<Ref, Contact>, a: Ref, b: Ref, x: nat, y: Queued, z: Queued, size: nat)
    requires Misjudged(heap, a, b, x, y, z) && 0 < size <= INT32_MAX
    ensures QueuedBeyond(heap[b], y, z, size)
    ensures Packed(heap, [a, b], [x, y.size, z.size], 0, 0, 3000) == [Some(a), Some(b), Some(b)]
  {
    hide Route, Packed, QueuedBeyond, Accounted;
    assert heap[b].total == heap[b].p0 by { NothingQueued(heap[b]); }
    ThreePacked(heap, a, b, x, y.size, z.size);
    QueuedTwice(heap[b], y, z, size);
  }

  lemma ThreePacked(heap: map<Ref, Contact>, a: Ref, b: Ref, x: nat, y: nat, z: nat)
    requires a in heap && b in heap && x > 0 && y > 0 && z > 0
    requires heap[a].fromMs == heap[b].fromMs == 1000 && heap[a].toMs == heap[b].toMs == 2000
    requires x <= heap[a].p0 < x + y <= INT32_MAX && y <= heap[b].p0 <= INT32_MAX
    requires x + y - heap[a].p0 + z <= heap[b].p0
    ensures Packed(heap, [a, b], [x, y, z], 0, 0, 3000) == [Some(a), Some(b), Some(b)]
  {
    hide Route;
    RoutePassesOver(heap, a, b, x, 0);
    RoutePassesOver(heap, a, b, y, x);
    RoutePassesOver(heap, a, b, z, x + y);
    assert [x, y, z][1..] == [y, z] && [y, z][1..] == [z] && [z][1..] == [];
    assert Packed(heap, [a, b], [z], x + y, 0, 3000) == [Some(b)];
    assert Packed(heap, [a, b], [y, z], x, 0, 3000) == [Some(b), Some(b)];
  }

  /** The contacts and fragments of the example. */
  lemma PackingExample()
    ensures Misjudged(map[1 := Vacant(1500), 2 := Vacant(1000)], 1, 2, 900, Queued(8, 900, 0), Queued(9, 400, 0))
  {
    hide Accounted;
    VacantAccounted(1000);
  }

  lemma NothingQueued(c: Contact)
    requires Accounted(c) && c.bundles == []
    ensures c.total == c.p0
  {
  }

  lemma VacantAccounted(capacity: nat)
    requires capacity < INT32_MAX
    ensures Accounted(Vacant(capacity))
  {
  }
}
