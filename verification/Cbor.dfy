/** CBOR item heads (section 3.1 of RFC 8949) and their predicted size. */
module Cbor {
  import opened Octets

  /** `bundle7_cbor_uint_sizeof` */
  function UintSize(n: nat): (r: nat)
    ensures 1 <= r <= 9
  {
    if n <= 0xFFFF then
      if n <= 0xFF then
        if n <= 23 then 1 else 2
      else 3
    else if n <= 0xFFFF_FFFF then 5
    else 9
  }

  /** The low `count` octets of `n`, most significant first. */
  function BigEndian(n: nat, count: nat): (r: seq<byte>)
    ensures |r| == count
  {
    if count == 0 then [] else BigEndian(n / 256, count - 1) + [n % 256]
  }

  function FromBigEndian(s: seq<byte>): nat {
    if s == [] then 0 else FromBigEndian(s[..|s| - 1]) * 256 + s[|s| - 1]
  }

  /** The head of an item of the given major type: the argument in the initial
      octet, or in the 1, 2, 4 or 8 octets that follow it. */
  function Head(major: nat, n: nat): seq<byte>
    requires major < 8 && n < TWO_64
  {
    if n <= 23 then [major * 32 + n]
    else if n <= 0xFF then [major * 32 + 24] + BigEndian(n, 1)
    else if n <= 0xFFFF then [major * 32 + 25] + BigEndian(n, 2)
    else if n <= 0xFFFF_FFFF then [major * 32 + 26] + BigEndian(n, 4)
    else [major * 32 + 27] + BigEndian(n, 8)
  }

  /** Reads one head: major type, argument and the octets after it. */
  function ReadHead(s: seq<byte>): Option<(nat, nat, seq<byte>)> {
    if s == [] then None
    else
      var major, info := s[0] / 32, s[0] % 32;
      if info <= 23 then Some((major, info, s[1..]))
      else if info > 27 then None
      else
        var width := if info == 24 then 1 else if info == 25 then 2 else if info == 26 then 4 else 8;
        if |s| < 1 + width then None
        else Some((major, FromBigEndian(s[1..1 + width]), s[1 + width..]))
  }

  function Pow256(k: nat): nat {
    if k == 0 then 1 else 256 * Pow256(k - 1)
  }

  lemma {:induction false} BigEndianRoundTrip(n: nat, count: nat)
    requires n < Pow256(count)
    ensures FromBigEndian(BigEndian(n, count)) == n
  {
    if count > 0 {
      BigEndianRoundTrip(n / 256, count - 1);
      assert BigEndian(n, count)[..count - 1] == BigEndian(n / 256, count - 1);
    }
  }

  lemma HeadSize(major: nat, n: nat)
    requires major < 8 && n < TWO_64
    ensures |Head(major, n)| == UintSize(n)
  {
  }

  lemma LongHeadRoundTrip(major: nat, info: nat, width: nat, n: nat, rest: seq<byte>)
    requires major < 8 && n < Pow256(width)
    requires (info, width) == (24, 1) || (info, width) == (25, 2) || (info, width) == (26, 4)
          || (info, width) == (27, 8)
    ensures ReadHead([major * 32 + info] + BigEndian(n, width) + rest) == Some((major, n, rest))
  {
    var s := [major * 32 + info] + BigEndian(n, width) + rest;
    assert s[0] / 32 == major && s[0] % 32 == info;
    assert s[1..1 + width] == BigEndian(n, width);
    assert s[1 + width..] == rest;
    BigEndianRoundTrip(n, width);
  }

  lemma ShortHeadRoundTrip(major: nat, n: nat, rest: seq<byte>)
    requires major < 8 && n <= 23
    ensures ReadHead([major * 32 + n] + rest) == Some((major, n, rest))
  {
    var s := [major * 32 + n] + rest;
    assert s[0] / 32 == major && s[0] % 32 == n;
    assert s[1..] == rest;
  }

  /** A written head is read back as the same item, whatever follows it. */
  lemma HeadRoundTrip(major: nat, n: nat, rest: seq<byte>)
    requires major < 8 && n < TWO_64
    ensures ReadHead(Head(major, n) + rest) == Some((major, n, rest))
  {
    hide BigEndian, FromBigEndian, ReadHead, Pow256;
    PowersOf256();
    if n <= 23 {
      ShortHeadRoundTrip(major, n, rest);
    } else if n <= 0xFF {
      LongHeadRoundTrip(major, 24, 1, n, rest);
    } else if n <= 0xFFFF {
      LongHeadRoundTrip(major, 25, 2, n, rest);
    } else if n <= 0xFFFF_FFFF {
      LongHeadRoundTrip(major, 26, 4, n, rest);
    } else {
      LongHeadRoundTrip(major, 27, 8, n, rest);
    }
  }

  lemma PowersOf256()
    ensures Pow256(1) == 256 && Pow256(2) == TWO_16 && Pow256(4) == TWO_32 && Pow256(8) == TWO_64
  {
    assert Pow256(3) == 256 * Pow256(2);
    assert Pow256(5) == 256 * Pow256(4);
    assert Pow256(6) == 256 * Pow256(5);
    assert Pow256(7) == 256 * Pow256(6);
  }

  lemma UintSizeMonotone(a: nat, b: nat)
    requires a <= b
    ensures UintSize(a) <= UintSize(b)
  {
  }
}
