/** The CRC-16 X.25 and CRC-32C functions of components/ud3tn/crc.c: one-shot, and
    as streams that keep the checksum in a 32-bit field. */
module CrcStream {
  import opened Octets
  import opened CrcDivision
  import opened Crc
  import opened CrcTables

  function Ones(n: nat): (r: Bits)
    ensures |r| == n && forall i :: 0 <= i < n ==> r[i]
  {
    seq(n, i => true)
  }

  /** The checksum by bit-serial division with the reflected polynomial. */
  function CrcOf(v: Version, data: seq<byte>): (r: Bits)
    ensures |r| == Width(v)
  {
    Xor(Divide(Ones(Width(v)), Mirror(Polynomial(v)), OctetsOf(data)), Ones(Width(v)))
  }

  /** It is the checksum of the published models: all-ones start and final
      value, input and result reflected. */
  lemma CrcIsModelled(v: Version, data: seq<byte>)
    ensures CrcOf(v, data) == Checksum(Model(Polynomial(v), Ones(Width(v)), Ones(Width(v)), true, true), data)
  {
    hide Divide, DivideHigh, Polynomial;
    var ones := Ones(Width(v));
    assert Mirror(ones) == ones;
    DivideMirror(ones, Polynomial(v), OctetsOf(data));
  }

  /** `crc16_x25` and `crc32` */
  method OneShot(v: Version, data: seq<byte>) returns (crc: Bits)
    ensures crc == CrcOf(v, data)
  {
    hide Divide, LowEntry, Polynomial, ToBits, Table;
    TableCorrect(v);
    crc := TableDivide(Ones(Width(v)), Table(v), data, Mirror(Polynomial(v)));
    crc := Xor(crc, Ones(Width(v)));
  }

  /** A word of the CRC's width in the 32-bit field. */
  function Wide(v: Version, x: Bits): (r: Bits)
    requires |x| == Width(v)
    ensures |r| == 32
  {
    x + Zeros(32 - Width(v))
  }

  class Stream {
    const version: Version
    const table: seq<Bits>
    var checksum: Bits
    /** The octets fed so far. */
    ghost var fed: seq<byte>

    ghost predicate Valid()
      reads this
    {
      && IsReflectedTable(table, Wide(version, Mirror(Polynomial(version))))
      && checksum == Wide(version, Divide(Ones(Width(version)), Mirror(Polynomial(version)), OctetsOf(fed)))
    }

    /** `crc_init`; the table's entries are 32-bit words. */
    constructor (v: Version)
      ensures Valid() && version == v && fed == []
    {
      hide WideTable, IsReflectedTable, Polynomial;
      WideTableCorrect(v);
      version, table := v, WideTable(v);
      checksum := Wide(v, Ones(Width(v)));
      fed := [];
    }

    method Feed(b: byte)
      requires Valid()
      modifies this
      ensures Valid() && fed == old(fed) + [b]
    {
      hide Divide, DownBy, LowEntry, Polynomial, ToBits, IsReflectedTable, Low;
      StreamStep(version, fed, b);
      checksum := TableStep(checksum, table, b, Wide(version, Mirror(Polynomial(version))));
      fed := fed + [b];
    }

    method FeedBytes(data: seq<byte>)
      requires Valid()
      modifies this
      ensures Valid() && fed == old(fed) + data
    {
      hide *;
      assert data[..0] == [];
      for i := 0 to |data|
        invariant Valid() && fed == old(fed) + data[..i]
      {
        Feed(data[i]);
        assert data[..i + 1] == data[..i] + [data[i]];
      }
      assert data[..|data|] == data;
    }

    /** `feed_eof`: afterwards the field holds the checksum of everything fed. */
    method FeedEof()
      requires Valid()
      modifies this`checksum
      ensures checksum == Wide(version, CrcOf(version, fed))
    {
      hide Divide, Polynomial, IsReflectedTable;
      ghost var rem := Divide(Ones(Width(version)), Mirror(Polynomial(version)), OctetsOf(fed));
      XorWide(rem, Ones(Width(version)), 32 - Width(version));
      checksum := Xor(checksum, Wide(version, Ones(Width(version))));
    }
  }

  lemma StreamStep(v: Version, fed: seq<byte>, b: byte)
    ensures var register := Divide(Ones(Width(v)), Mirror(Polynomial(v)), OctetsOf(fed));
      Wide(v, Divide(Ones(Width(v)), Mirror(Polynomial(v)), OctetsOf(fed + [b])))
      == DownBy(Xor(Wide(v, register), Low(Octet(b), 32)), Wide(v, Mirror(Polynomial(v))), 8)
  {
    hide DownBy, Polynomial, ToBits;
    var w, poly := Width(v), Mirror(Polynomial(v));
    var register := Divide(Ones(w), poly, OctetsOf(fed));
    var octets := OctetsOf(fed + [b]);
    assert octets[..|octets| - 1] == OctetsOf(fed) && octets[|octets| - 1] == Octet(b);
    XorWide(register, Low(Octet(b), w), 32 - w);
    assert Low(Octet(b), 32) == Low(Octet(b), w) + Zeros(32 - w);
    DownByWide(Xor(register, Low(Octet(b), w)), poly, 32 - w, 8);
  }
}
