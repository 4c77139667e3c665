/** Self-delimiting numeric values (section 4.1 of RFC 5050, section 2 of RFC 6256)
    as components/bundle6/sdnv.c sizes, writes and reads them. */
module Sdnv {
  import opened Octets

  datatype Width = U8 | U16 | U32 | U64

  function Limit(w: Width): nat {
    match w case U8 => 256 case U16 => TWO_16 case U32 => TWO_32 case U64 => TWO_64
  }

  /** `sdnv_get_size_u8` to `sdnv_get_size_u64`, with the masks as comparisons. */
  function Size(w: Width, value: nat): nat {
    match w
    case U8 => if value < 0x80 then 1 else 2
    case U16 => if value < 0x80 then 1 else if value < 0x4000 then 2 else 3
    case U32 =>
      if value < 0x80 then 1 else if value < 0x4000 then 2 else if value < 0x20_0000 then 3
      else if value < 0x1000_0000 then 4 else 5
    case U64 =>
      if value < 0x80 then 1 else if value < 0x4000 then 2 else if value < 0x20_0000 then 3
      else if value < 0x1000_0000 then 4 else if value < 0x8_0000_0000 then 5
      else if value < 0x400_0000_0000 then 6 else if value < 0x2_0000_0000_0000 then 7
      else if value < 0x100_0000_0000_0000 then 8 else if value < 0x8000_0000_0000_0000 then 9 else 10
  }

  // ---- Groups of seven bits

  /** The number of groups of seven bits a value has. */
  function GroupCount(value: nat): (r: nat)
    ensures r >= 1
  {
    if value < 128 then 1 else 1 + GroupCount(value / 128)
  }

  /** The low groups of a value, most significant first, each marked as followed
      by another one. */
  function Marked(value: nat, count: nat): (r: seq<byte>)
    ensures |r| == count
  {
    if count == 0 then [] else Marked(value / 128, count - 1) + [value % 128 + 128]
  }

  function Encode(value: nat): (r: seq<byte>)
    ensures |r| == GroupCount(value)
  {
    Marked(value / 128, GroupCount(value) - 1) + [value % 128]
  }

  function Pow128(k: nat): nat {
    if k == 0 then 1 else 128 * Pow128(k - 1)
  }

  /** A value of `k` groups is below the `k`th power and not below the one before. */
  lemma {:induction false} GroupBounds(value: nat)
    ensures value < Pow128(GroupCount(value))
    ensures GroupCount(value) > 1 ==> value >= Pow128(GroupCount(value) - 1)
  {
    if value >= 128 {
      GroupBounds(value / 128);
    }
  }

  lemma {:induction false} GroupCountAtMost(value: nat, k: nat)
    requires k >= 1 && value < Pow128(k)
    ensures GroupCount(value) <= k
  {
    if value >= 128 {
      assert Pow128(1) == 128 * Pow128(0);
      GroupCountAtMost(value / 128, k - 1);
    }
  }

  lemma Powers()
    ensures Pow128(1) == 0x80 && Pow128(2) == 0x4000 && Pow128(3) == 0x20_0000 && Pow128(4) == 0x1000_0000
    ensures Pow128(5) == 0x8_0000_0000 && Pow128(6) == 0x400_0000_0000 && Pow128(7) == 0x2_0000_0000_0000
    ensures Pow128(8) == 0x100_0000_0000_0000 && Pow128(9) == 0x8000_0000_0000_0000
    ensures Pow128(10) == 0x40_0000_0000_0000_0000
  {
    assert Pow128(1) == 128 * Pow128(0);
    assert Pow128(2) == 128 * Pow128(1);
    assert Pow128(3) == 128 * Pow128(2);
    assert Pow128(4) == 128 * Pow128(3);
    assert Pow128(5) == 128 * Pow128(4);
    assert Pow128(6) == 128 * Pow128(5);
    assert Pow128(7) == 128 * Pow128(6);
    assert Pow128(8) == 128 * Pow128(7);
    assert Pow128(9) == 128 * Pow128(8);
  }

  lemma GroupCountExactly(value: nat, k: nat)
    requires k >= 1 && value < Pow128(k) && (k > 1 ==> value >= Pow128(k - 1))
    ensures GroupCount(value) == k
  {
    GroupCountAtMost(value, k);
    if GroupCount(value) < k {
      GroupBounds(value);
      PowOrder(GroupCount(value), k - 1);
      assert false;
    }
  }

  lemma {:induction false} PowOrder(a: nat, b: nat)
    requires a <= b
    ensures Pow128(a) <= Pow128(b)
  {
    if a < b {
      PowOrder(a, b - 1);
    }
  }

  /** At every width the size is the number of groups. */
  lemma SizeIsGroupCount(w: Width, value: nat)
    requires value < Limit(w)
    ensures Size(w, value) == GroupCount(value)
  {
    hide GroupCount, Pow128;
    Powers();
    NoGroups();
    GroupCountExactly(value, Size(w, value));
  }

  lemma NoGroups()
    ensures Pow128(0) == 1
  {
  }

  // ---- Writing

  /** `sdnv_write_generic`: fills the buffer from the last octet to the first. */
  method Write(buffer: array<byte>, w: Width, value: nat) returns (n: nat)
    requires value < Limit(w) && buffer.Length >= 10
    modifies buffer
    ensures n == GroupCount(value) <= buffer.Length && buffer[..n] == Encode(value)
  {
    hide GroupCount, Limit, Marked, Size;
    n := Size(w, value);
    SizeIsGroupCount(w, value);
    SizeFits(w, value);
    Fill(buffer, value, n);
    MarkedLast(value, n);
    buffer[n - 1] := buffer[n - 1] % 128;
    assert buffer[..n] == buffer[..n - 1] + [buffer[n - 1]];
  }

  /** The loop over the buffer. */
  method Fill(buffer: array<byte>, value: nat, n: nat)
    requires n <= buffer.Length
    modifies buffer
    ensures buffer[..n] == Marked(value, n)
  {
    hide Marked;
    ghost var all := Marked(value, n);
    var rest := value;
    var i := n;
    while i > 0
      invariant 0 <= i <= n
      invariant all[..i] == Marked(rest, i)
      invariant forall k :: i <= k < n ==> buffer[k] == all[k]
    {
      MarkedLast(rest, i);
      assert all[i - 1] == all[..i][i - 1] == rest % 128 + 128;
      assert all[..i - 1] == all[..i][..i - 1] == Marked(rest / 128, i - 1);
      i := i - 1;
      buffer[i] := rest % 128 + 128;
      rest := rest / 128;
    }
  }

  lemma SizeFits(w: Width, value: nat)
    ensures 1 <= Size(w, value) <= 10
  {
  }

  lemma MarkedLast(value: nat, count: nat)
    ensures Marked(value, 0) == []
    ensures count > 0 ==> Marked(value, count) == Marked(value / 128, count - 1) + [value % 128 + 128]
  {
  }

  // ---- Reading

  datatype Status = InProgress | Done | Failed

  datatype State = State(status: Status, parsed: nat)

  const FRESH := State(InProgress, 0)

  /** `sdnv_validate_byte_u8` to `sdnv_validate_byte_u64`: another octet fits. */
  predicate FitsMore(w: Width, parsed: nat, value: nat) {
    match w
    case U8 => parsed < 1 || (parsed == 1 && value <= 0x1)
    case U16 => parsed < 2 || (parsed == 2 && value <= 0x1FF)
    case U32 => parsed < 4 || (parsed == 4 && value <= 0x1FF_FFFF)
    case U64 => parsed < 9 || (parsed == 9 && value <= 0x1FF_FFFF_FFFF_FFFF)
  }

  /** `sdnv_read_generic`: one octet; the value is shifted within its width. */
  function Read(w: Width, s: State, value: nat, b: byte): (State, nat) {
    if !FitsMore(w, s.parsed, value) then (s.(status := Failed), value)
    else if s.status == Done then (s.(status := Failed), value)
    else
      var shifted := if s.parsed == 0 then 0 else value * 128 % Limit(w);
      (State(if b < 128 then Done else s.status, s.parsed + 1), shifted + b % 128)
  }

  function ReadAll(w: Width, s: State, value: nat, bytes: seq<byte>): (State, nat) {
    if bytes == [] then (s, value)
    else
      var (t, v) := ReadAll(w, s, value, bytes[..|bytes| - 1]);
      Read(w, t, v, bytes[|bytes| - 1])
  }

  /** Before the last group of a value of this width there is always room. */
  lemma RoomForMore(w: Width, value: nat, k: nat)
    requires value < Limit(w) && k < GroupCount(value)
    requires k == GroupCount(value) - 1 || k + 1 < GroupCount(value)
    ensures k + 1 == GroupCount(value) ==> FitsMore(w, k, value / 128)
    ensures k + 1 < GroupCount(value) ==> forall v :: FitsMore(w, k, v)
  {
    hide GroupCount, Pow128;
    Powers();
    GroupCountAtMost(value, match w case U8 => 2 case U16 => 3 case U32 => 5 case U64 => 10);
  }

  /** One group more: what was read, shifted, with the group added. */
  lemma ReadGroup(w: Width, k: nat, high: nat, b: byte)
    requires high * 128 < Limit(w) && FitsMore(w, k, high) && k > 0
    ensures Read(w, State(InProgress, k), high, b)
            == (State(if b < 128 then Done else InProgress, k + 1), high * 128 + b % 128)
  {
    hide FitsMore, Limit;
    SmallRemainder(high * 128, Limit(w));
  }

  lemma SmallRemainder(x: nat, m: nat)
    requires x < m
    ensures x % m == x
  {
  }

  lemma ReadFirst(w: Width, stale: nat, b: byte)
    ensures Read(w, FRESH, stale, b) == (State(if b < 128 then Done else InProgress, 1), b % 128)
  {
  }

  lemma Regroup(x: nat)
    ensures x / 128 * 128 + x % 128 == x && (x % 128 + 128) % 128 == x % 128
    ensures x < 128 ==> x % 128 == x && x / 128 == 0
  {
  }

  /** The marked groups are read as the number they stand for. */
  lemma {:induction false} ReadMarked(w: Width, value: nat, stale: nat, high: nat, k: nat)
    requires value < Limit(w) && k < GroupCount(value) && high < Pow128(k) && high <= value / 128
    ensures ReadAll(w, FRESH, stale, Marked(high, k)) == (State(InProgress, k), if k == 0 then stale else high)
  {
    hide GroupCount, FitsMore, Read, Limit, Pow128;
    if k > 0 {
      var m := Marked(high, k);
      assert m[..k - 1] == Marked(high / 128, k - 1);
      assert m[k - 1] == high % 128 + 128;
      Regroup(high);
      LowerPower(high, k);
      ReadMarked(w, value, stale, high / 128, k - 1);
      if k == 1 {
        ReadFirst(w, stale, m[0]);
      } else {
        RoomForMore(w, value, k - 1);
        assert high / 128 * 128 < Limit(w);
        ReadGroup(w, k - 1, high / 128, m[k - 1]);
      }
    }
  }

  lemma LowerPower(high: nat, k: nat)
    requires high < Pow128(k) && k > 0
    ensures high / 128 < Pow128(k - 1) && (k == 1 ==> high < 128)
  {
    assert Pow128(k) == 128 * Pow128(k - 1);
  }

  /** Writing and reading are inverse at every width. */
  lemma RoundTrip(w: Width, value: nat, stale: nat)
    requires value < Limit(w)
    ensures ReadAll(w, FRESH, stale, Encode(value)) == (State(Done, GroupCount(value)), value)
  {
    hide FitsMore, Marked, GroupCount, Read, Limit, Pow128;
    var k := GroupCount(value) - 1;
    HighGroups(value);
    Regroup(value);
    ReadMarked(w, value, stale, value / 128, k);
    var e := Encode(value);
    assert e[..k] == Marked(value / 128, k) && e[k] == value % 128;
    if k == 0 {
      ReadFirst(w, stale, e[0]);
    } else {
      RoomForMore(w, value, k);
      ReadGroup(w, k, value / 128, e[k]);
    }
  }

  lemma HighGroups(value: nat)
    ensures value / 128 < Pow128(GroupCount(value) - 1)
    ensures GroupCount(value) == 1 ==> value < 128
  {
    GroupBounds(value);
    assert Pow128(GroupCount(value)) == 128 * Pow128(GroupCount(value) - 1);
  }
}
