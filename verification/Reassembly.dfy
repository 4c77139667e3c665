/** Reassembling fragments into an ADU (components/ud3tn/bundle_processor.c),
    section 5.9 of RFC 9171. */
module Reassembly {
  import opened Octets
  import opened KnownBundles

  /** A bundle as it arrives for local delivery, with the deadline its creation
      time, lifetime and age give it. */
  datatype Incoming = Incoming(version: nat, source: string, destination: string,
                               creationMs: nat, sequence: nat, deadline: nat, procFlags: nat,
                               offset: nat, total: nat, payload: seq<byte>)

  datatype Adu = Adu(version: nat, procFlags: nat, source: string, destination: string,
                     creationMs: nat, sequence: nat, payload: seq<byte>)

  predicate IsFragment(b: Incoming) {
    b.procFlags % 2 == 1
  }

  function ParentOf(b: Incoming): ParentId {
    ParentId(b.version, b.source, b.creationMs, b.sequence)
  }

  function IdOf(b: Incoming): BundleId {
    BundleId(ParentOf(b), b.offset, |b.payload|)
  }

  function ReassembledId(b: Incoming): BundleId {
    BundleId(ParentOf(b), 0, b.total)
  }

  /** What `may_reassemble` compares. */
  datatype Key = Key(creationMs: nat, sequence: nat, source: string)

  function KeyOf(b: Incoming): Key {
    Key(b.creationMs, b.sequence, b.source)
  }

  function AduOf(b: Incoming, payload: seq<byte>): Adu {
    Adu(b.version, b.procFlags - b.procFlags % 2, b.source, b.destination, b.creationMs, b.sequence, payload)
  }

  // ---- Specification

  /** `add_to_reassembly_bundle_list` */
  function InsertByOffset(slot: seq<Incoming>, b: Incoming): (r: seq<Incoming>)
    ensures |r| == |slot| + 1
  {
    if slot == [] || slot[0].offset > b.offset then [b] + slot
    else [slot[0]] + InsertByOffset(slot[1..], b)
  }

  /** End of a fragment in the ADU, in 32 bits. */
  function End(b: Incoming): nat {
    (b.offset + |b.payload|) % TWO_32
  }

  /** The first loop of `try_reassemble`: no gap before some fragment reaches
      the end of the ADU. The position is the end of the last fragment seen. */
  predicate CanReassemble(frags: seq<Incoming>, pos: nat) {
    frags != [] && frags[0].offset <= pos &&
    (End(frags[0]) >= frags[0].total || CanReassemble(frags[1..], End(frags[0])))
  }

  /** How many fragments that loop looks at. */
  function Checked(frags: seq<Incoming>, pos: nat): (k: nat)
    ensures k <= |frags| && (frags != [] ==> k > 0)
  {
    if frags == [] then 0
    else if frags[0].offset <= pos && End(frags[0]) < frags[0].total then 1 + Checked(frags[1..], End(frags[0]))
    else 1
  }

  /** `dst` with `n` octets of `src` from position `from` copied to `at`. */
  function Copied(dst: seq<byte>, at: nat, src: seq<byte>, from: nat, n: nat): (r: seq<byte>)
    requires at + n <= |dst| && from + n <= |src|
    ensures |r| == |dst|
  {
    dst[..at] + src[from..from + n] + dst[at + n..]
  }

  /** The second loop of `try_reassemble`. That it is defined for every list
      of fragments is memory safety: no copy leaves a fragment or the buffer. */
  function CopyFrom(frags: seq<Incoming>, buffer: seq<byte>, pos: nat): (r: seq<byte>)
    requires pos <= |buffer|
    ensures |r| == |buffer|
  {
    if frags == [] then buffer
    else
      var (next, end) := CopyOne(frags[0], buffer, pos);
      CopyFrom(frags[1..], next, end)
  }

  /** The buffer and the position after copying from one fragment. */
  function CopyOne(b: Incoming, buffer: seq<byte>, pos: nat): (r: (seq<byte>, nat))
    requires pos <= |buffer|
    ensures |r.0| == |buffer| && pos <= r.1 <= |buffer|
  {
    var offsetInBundle := (pos - b.offset) % TWO_64;
    if offsetInBundle < |b.payload| then
      var n := Min(|b.payload| - offsetInBundle, |buffer| - pos);
      (Copied(buffer, pos, b.payload, offsetInBundle, n), pos + n)
    else (buffer, pos)
  }

  /** Fresh memory has arbitrary contents, given by `heap`. */
  function Fresh(n: nat, heap: nat -> byte): (r: seq<byte>)
    ensures |r| == n && forall i :: 0 <= i < n ==> r[i] == heap(i)
  {
    seq<byte>(n, i requires 0 <= i < n => heap(i))
  }

  // ---- The operations

  method Memcpy(dst: array<byte>, at: nat, src: seq<byte>, from: nat, n: nat)
    requires at + n <= dst.Length && from + n <= |src|
    modifies dst
    ensures dst[..] == Copied(old(dst[..]), at, src, from, n)
  {
    for k := 0 to n
      invariant forall i :: 0 <= i < dst.Length ==>
        dst[i] == if at <= i < at + k then src[from + (i - at)] else old(dst[i])
    {
      dst[at + k] := src[from + k];
    }
  }

  /** The copying loop, into a buffer of the ADU's length. */
  method CopyFragments(frags: seq<Incoming>, aduLength: nat, heap: nat -> byte) returns (payload: array<byte>)
    ensures fresh(payload) && payload[..] == CopyFrom(frags, Fresh(aduLength, heap), 0)
  {
    payload := new byte[aduLength](i requires 0 <= i => heap(i));
    assert payload[..] == Fresh(aduLength, heap);
    var pos: nat := 0;
    for i := 0 to |frags|
      invariant pos <= aduLength == payload.Length
      invariant CopyFrom(frags[i..], payload[..], pos) == CopyFrom(frags, Fresh(aduLength, heap), 0)
    {
      var b := frags[i];
      assert frags[i..][0] == b && frags[i..][1..] == frags[i + 1..];
      var offsetInBundle := (pos - b.offset) % TWO_64;
      if offsetInBundle < |b.payload| {
        var bytesCopied := Min(|b.payload| - offsetInBundle, aduLength - pos);
        Memcpy(payload, pos, b.payload, offsetInBundle, bytesCopied);
        pos := pos + bytesCopied;
      }
    }
  }

  /** The checking loop. */
  method CheckFragments(frags: seq<Incoming>) returns (complete: bool, ghost seen: nat)
    ensures complete == CanReassemble(frags, 0) && seen == Checked(frags, 0)
  {
    var pos: nat := 0;
    for i := 0 to |frags|
      invariant CanReassemble(frags, 0) == CanReassemble(frags[i..], pos)
      invariant Checked(frags, 0) == i + Checked(frags[i..], pos)
    {
      assert frags[i..][0] == frags[i] && frags[i..][1..] == frags[i + 1..];
      if frags[i].offset > pos {
        return false, i + 1;
      }
      pos := (frags[i].offset + |frags[i].payload|) % TWO_32;
      if pos >= frags[i].total {
        return true, i + 1;
      }
    }
    return false, |frags|;
  }

  // ---- Soundness: what is delivered is the ADU

  predicate InRange(b: Incoming) {
    b.offset < TWO_32 && |b.payload| < TWO_32
  }

  /** The fragments carry octets of `adu` and agree on its length; they may
      overlap, nest, repeat, or run past its end. */
  predicate Consistent(frags: seq<Incoming>, adu: seq<byte>) {
    forall i :: 0 <= i < |frags| ==>
      && InRange(frags[i]) && frags[i].total == |adu|
      && AgreesWith(frags[i], adu)
  }

  predicate AgreesWith(b: Incoming, adu: seq<byte>) {
    forall j :: 0 <= j < |b.payload| && b.offset + j < |adu| ==> b.payload[j] == adu[b.offset + j]
  }

  lemma {:induction false} CopyPastEnd(frags: seq<Incoming>, buffer: seq<byte>)
    ensures CopyFrom(frags, buffer, |buffer|) == buffer
  {
    if frags != [] {
      CopyPastEnd(frags[1..], buffer);
      var offsetInBundle := (|buffer| - frags[0].offset) % TWO_64;
      if offsetInBundle < |frags[0].payload| {
        assert Copied(buffer, |buffer|, frags[0].payload, offsetInBundle, 0) == buffer;
      }
    }
  }

  /** Copying a fragment that starts at or before the position extends the
      correct prefix of the buffer to the fragment's end. */
  lemma CopyOneExtends(b: Incoming, adu: seq<byte>, buffer: seq<byte>, pos: nat)
    requires AgreesWith(b, adu) && InRange(b) && |buffer| == |adu| < TWO_32
    requires b.offset <= pos <= |adu| && buffer[..pos] == adu[..pos]
    ensures var (next, end) := CopyOne(b, buffer, pos);
      && Min(|adu|, End(b)) <= end && next[..end] == adu[..end]
  {
    var (next, end) := CopyOne(b, buffer, pos);
    forall i | 0 <= i < end ensures next[i] == adu[i] {
      if i < pos {
        assert next[i] == buffer[..pos][i] == adu[..pos][i];
      } else {
        assert next[i] == b.payload[i - b.offset];
      }
    }
  }

  lemma {:induction false} CopyReaches(frags: seq<Incoming>, adu: seq<byte>, buffer: seq<byte>, pos: nat, check: nat)
    requires Consistent(frags, adu) && |buffer| == |adu| < TWO_32
    requires check <= pos <= |adu| && buffer[..pos] == adu[..pos]
    requires CanReassemble(frags, check)
    ensures CopyFrom(frags, buffer, pos) == adu
  {
    var b := frags[0];
    assert AgreesWith(b, adu) && InRange(b);
    var (next, end) := CopyOne(b, buffer, pos);
    CopyOneExtends(b, adu, buffer, pos);
    if End(b) >= |adu| {
      assert next[..|adu|] == next && adu[..|adu|] == adu;
      CopyPastEnd(frags[1..], next);
    } else {
      CopyReaches(frags[1..], adu, next, end, End(b));
    }
  }

  /** Whenever the check passes, the copied payload is the ADU, whatever the
      memory held before and however the fragments overlap. */
  lemma ReassemblySound(frags: seq<Incoming>, adu: seq<byte>, heap: nat -> byte)
    requires Consistent(frags, adu) && |adu| < TWO_32
    requires CanReassemble(frags, 0)
    ensures CopyFrom(frags, Fresh(|adu|, heap), 0) == adu
  {
    CopyReaches(frags, adu, Fresh(|adu|, heap), 0, 0);
  }

  // ---- When it is delivered

  predicate SortedByOffset(frags: seq<Incoming>) {
    forall i, j :: 0 <= i < j < |frags| ==> frags[i].offset <= frags[j].offset
  }

  predicate Covers(frags: seq<Incoming>, octet: nat) {
    exists i :: 0 <= i < |frags| && frags[i].offset <= octet < frags[i].offset + |frags[i].payload|
  }

  predicate CoversAll(frags: seq<Incoming>, from: nat, to: nat) {
    forall octet :: from <= octet < to ==> Covers(frags, octet)
  }

  /** No fragment ends before an earlier one. */
  predicate NoneNested(frags: seq<Incoming>) {
    forall i, j :: 0 <= i < j < |frags| ==> End(frags[i]) <= End(frags[j])
  }

  predicate Fits(frags: seq<Incoming>, total: nat) {
    forall i :: 0 <= i < |frags| ==>
      frags[i].total == total && frags[i].offset + |frags[i].payload| <= total < TWO_32
  }

  lemma {:induction false} DeliveryCovers(frags: seq<Incoming>, total: nat, pos: nat)
    requires Fits(frags, total) && CanReassemble(frags, pos)
    ensures CoversAll(frags, pos, total)
  {
    var b := frags[0];
    forall octet | pos <= octet < total ensures Covers(frags, octet) {
      if octet < End(b) {
        assert frags[0].offset <= octet < frags[0].offset + |frags[0].payload|;
      } else {
        DeliveryCovers(frags[1..], total, End(b));
        assert Covers(frags[1..], octet);
        var next := frags[1..];
        var i :| 0 <= i < |next| && next[i].offset <= octet < next[i].offset + |next[i].payload|;
        assert frags[i + 1] == next[i];
      }
    }
  }

  lemma {:induction false} CoverageDelivers(frags: seq<Incoming>, total: nat, pos: nat)
    requires Fits(frags, total) && SortedByOffset(frags) && NoneNested(frags)
    requires pos < total && CoversAll(frags, pos, total)
    requires forall i :: 0 <= i < |frags| ==> pos <= End(frags[i])
    ensures CanReassemble(frags, pos)
  {
    assert Covers(frags, pos);
    var k :| 0 <= k < |frags| && frags[k].offset <= pos < frags[k].offset + |frags[k].payload|;
    var b := frags[0];
    assert b.offset <= frags[k].offset;
    if End(b) < total {
      var next := frags[1..];
      forall octet | End(b) <= octet < total ensures Covers(next, octet) {
        LaterCovers(frags, total, pos, octet);
      }
      CoverageDelivers(next, total, End(b));
    }
  }

  lemma LaterCovers(frags: seq<Incoming>, total: nat, pos: nat, octet: nat)
    requires frags != [] && Fits(frags, total) && NoneNested(frags) && CoversAll(frags, pos, total)
    requires pos <= End(frags[0]) <= octet < total
    ensures Covers(frags[1..], octet)
  {
    assert Covers(frags, octet);
    var i :| 0 <= i < |frags| && frags[i].offset <= octet < frags[i].offset + |frags[i].payload|;
    assert frags[1..][i - 1] == frags[i];
  }

  /** For fragments in offset order none of which is nested in an earlier one,
      the ADU is delivered exactly when every octet of it has arrived. */
  lemma DeliversExactlyWhenCovered(frags: seq<Incoming>, total: nat)
    requires Fits(frags, total) && SortedByOffset(frags) && NoneNested(frags) && total > 0
    ensures CanReassemble(frags, 0) <==> CoversAll(frags, 0, total)
  {
    if CanReassemble(frags, 0) {
      DeliveryCovers(frags, total, 0);
    }
    if CoversAll(frags, 0, total) {
      CoverageDelivers(frags, total, 0);
    }
  }

  /** Before any fragment reaches the end, this one starts behind the end of the
      one directly in front of it. */
  predicate StartsBehind(frags: seq<Incoming>, i: nat, total: nat)
    requires 0 < i < |frags|
  {
    frags[i].offset > End(frags[i - 1]) && forall j :: 0 <= j < i ==> End(frags[j]) < total
  }

  predicate HasJump(frags: seq<Incoming>, total: nat) {
    exists i :: 0 < i < |frags| && StartsBehind(frags, i, total)
  }

  lemma {:induction false} PassedHasNoJump(frags: seq<Incoming>, total: nat, pos: nat, i: nat)
    requires Fits(frags, total) && CanReassemble(frags, pos) && 0 < i < |frags|
    ensures !StartsBehind(frags, i, total)
  {
    if StartsBehind(frags, i, total) {
      assert End(frags[0]) < total;
      var next := frags[1..];
      if i > 1 {
        assert forall j :: 0 <= j < i ==> next[j] == frags[j + 1];
        PassedHasNoJump(next, total, End(frags[0]), i - 1);
        assert StartsBehind(next, i - 1, total);
      }
    }
  }

  lemma {:induction false} NoJumpPasses(frags: seq<Incoming>, total: nat, pos: nat, k: nat)
    requires Fits(frags, total) && !HasJump(frags, total)
    requires k < |frags| && End(frags[k]) >= total && frags[0].offset <= pos
    ensures CanReassemble(frags, pos)
  {
    if End(frags[0]) < total {
      var next := frags[1..];
      assert next[k - 1] == frags[k];
      assert !StartsBehind(frags, 1, total);
      if HasJump(next, total) {
        var i :| 0 < i < |next| && StartsBehind(next, i, total);
        assert forall j :: 0 < j <= i + 1 ==> frags[j] == next[j - 1];
        assert StartsBehind(frags, i + 1, total);
      }
      NoJumpPasses(next, total, End(frags[0]), k - 1);
    }
  }

  /** Exactly which sets of fragments are delivered: those with every octet of the
      ADU in which no fragment starts behind the one in front of it. */
  lemma DeliveredExactly(frags: seq<Incoming>, total: nat)
    requires Fits(frags, total) && SortedByOffset(frags) && total > 0
    ensures CanReassemble(frags, 0) <==> CoversAll(frags, 0, total) && !HasJump(frags, total)
  {
    hide CanReassemble, HasJump, SortedByOffset;
    if CanReassemble(frags, 0) {
      DeliveryCovers(frags, total, 0);
      assert !HasJump(frags, total) by { NoJumps(frags, total); }
    }
    if CoversAll(frags, 0, total) && !HasJump(frags, total) {
      assert Covers(frags, 0) && Covers(frags, total - 1);
      var first :| 0 <= first < |frags| && frags[first].offset <= 0;
      assert frags[0].offset <= frags[first].offset by { OffsetsSorted(frags, 0, first); }
      var last :| 0 <= last < |frags| && total - 1 < frags[last].offset + |frags[last].payload|;
      NoJumpPasses(frags, total, 0, last);
    }
  }

  lemma NoJumps(frags: seq<Incoming>, total: nat)
    requires Fits(frags, total) && CanReassemble(frags, 0)
    ensures !HasJump(frags, total)
  {
    hide CanReassemble, StartsBehind;
    forall i | 0 < i < |frags| ensures !StartsBehind(frags, i, total) {
      PassedHasNoJump(frags, total, 0, i);
    }
  }

  lemma OffsetsSorted(frags: seq<Incoming>, i: nat, j: nat)
    requires SortedByOffset(frags) && i <= j < |frags|
    ensures frags[i].offset <= frags[j].offset
  {
  }

  /** With a nested fragment the check loop's position moves backwards, and a
      complete set of fragments can be taken for one with a gap. */
  lemma NestedFragmentHidesCoverage(b: Incoming)
    ensures var part := (offset: nat, length: nat) =>
              b.(offset := offset, total := 20, payload := seq(length, i => 0));
      var frags := [part(0, 10), part(2, 3), part(8, 12)];
      Fits(frags, 20) && SortedByOffset(frags) && CoversAll(frags, 0, 20) && !CanReassemble(frags, 0)
  {
    var part := (offset: nat, length: nat) =>
      b.(offset := offset, total := 20, payload := seq(length, i => 0));
    var frags := [part(0, 10), part(2, 3), part(8, 12)];
    forall octet | 0 <= octet < 20 ensures Covers(frags, octet) {
      if octet < 10 {
        assert frags[0].offset <= octet < frags[0].offset + |frags[0].payload|;
      } else {
        assert frags[2].offset <= octet < frags[2].offset + |frags[2].payload|;
      }
    }
    assert frags[1..] == [part(2, 3), part(8, 12)];
    assert frags[1..][1..] == [part(8, 12)];
    assert !CanReassemble(frags[1..][1..], 5);
    assert !CanReassemble(frags[1..], 10);
  }
}
