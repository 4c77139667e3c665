/** Table-driven CRCs: the generic model, the fast path and the table generators
    of pyd3tn/pyd3tn/crc.py. */
module Crc {
  import opened Octets
  import opened CrcDivision

  // ---- Numbers and bits

  function ToBits(n: nat, w: nat): (r: Bits)
    ensures |r| == w
  {
    if w == 0 then [] else [n % 2 == 1] + ToBits(n / 2, w - 1)
  }

  function Value(b: Bits): nat {
    if b == [] then 0 else (if b[0] then 1 else 0) + 2 * Value(b[1..])
  }

  function PowerOf2(n: nat): nat {
    if n == 0 then 1 else 2 * PowerOf2(n - 1)
  }

  lemma {:induction false} ValueToBits(b: Bits)
    ensures Value(b) < PowerOf2(|b|) && ToBits(Value(b), |b|) == b
  {
    if b != [] {
      ValueToBits(b[1..]);
      assert b == [b[0]] + b[1..];
    }
  }

  function Halved(n: nat, i: nat): nat {
    if i == 0 then n else Halved(n / 2, i - 1)
  }

  lemma {:induction false} BitAt(n: nat, w: nat, i: nat)
    requires i < w
    ensures ToBits(n, w)[i] == (Halved(n, i) % 2 == 1)
  {
    if i > 0 {
      BitAt(n / 2, w - 1, i - 1);
    }
  }

  function Octet(b: byte): (r: Bits)
    ensures |r| == 8
  {
    ToBits(b, 8)
  }

  function OctetsOf(data: seq<byte>): (r: seq<Bits>)
    ensures |r| == |data| && CrcDivision.Octets(r)
    ensures forall i :: 0 <= i < |data| ==> r[i] == Octet(data[i])
  {
    seq(|data|, i requires 0 <= i < |data| => Octet(data[i]))
  }

  function Index(b: Bits): (r: nat)
    requires |b| == 8
    ensures r < 256
  {
    ValueToBits(b);
    assert PowerOf2(8) == 256 by { assert PowerOf2(4) == 16; }
    Value(b)
  }

  lemma IndexOctet(b: Bits)
    requires |b| == 8
    ensures Octet(Index(b)) == b
  {
    ValueToBits(b);
  }

  // ---- Table generation

  /** The polynomial added to the low bits of a number of any size. */
  function AddPoly(x: Bits, poly: Bits): (r: Bits)
    requires |poly| <= |x|
    ensures |r| == |x|
  {
    Xor(x[..|poly|], poly) + x[|poly|..]
  }

  /** `reflect`: collects the set bits at the mirrored positions. */
  method Reflect(num: Bits, width: nat) returns (reflected: Bits)
    requires width <= |num|
    ensures reflected == Mirror(num[..width])
  {
    reflected := Zeros(width);
    for i := 0 to width
      invariant |reflected| == width
      invariant forall k :: 0 <= k < width ==> reflected[k] == (width - 1 - k < i && num[width - 1 - k])
    {
      if num[i] {
        reflected := reflected[width - 1 - i := true];
      }
    }
  }

  lemma UncutStep(cur: Bits, poly: Bits)
    requires |cur| >= |poly| > 0
    ensures cur[|poly| - 1] ==> AddPoly([false] + cur, poly)[..|poly|] == Up(cur[..|poly|], poly)
    ensures !cur[|poly| - 1] ==> ([false] + cur)[..|poly|] == Up(cur[..|poly|], poly)
  {
    var w := |poly|;
    assert ([false] + cur)[..w] == [false] + cur[..w][..w - 1];
  }

  /** Eight steps on a number that is not cut to the register's width: the bits
      that leave at the top are kept, and have no influence. */
  method ShiftEight(start: Bits, poly: Bits) returns (cur: Bits)
    requires |start| == |poly| > 0
    ensures |cur| == |poly| + 8 && cur[..|poly|] == UpBy(start, poly, 8)
  {
    hide Up, Xor;
    var w := |poly|;
    cur := start;
    assert cur[..w] == start;
    for bit := 0 to 8
      invariant |cur| == w + bit
      invariant UpBy(cur[..w], poly, 8 - bit) == UpBy(start, poly, 8)
    {
      UncutStep(cur, poly);
      if cur[w - 1] {
        cur := AddPoly([false] + cur, poly);
      } else {
        cur := [false] + cur;
      }
    }
  }

  /** Entry of the plain table: the remainder of the octet at the top. */
  function HighEntry(octet: Bits, poly: Bits): (r: Bits)
    requires |octet| == 8 <= |poly|
    ensures |r| == |poly|
  {
    UpBy(Zeros(|poly| - 8) + octet, poly, 8)
  }

  /** Entry of the reflected table: the remainder of the octet at the bottom. */
  function LowEntry(octet: Bits, reflectedPoly: Bits): (r: Bits)
    requires |octet| == 8 <= |reflectedPoly|
    ensures |r| == |reflectedPoly|
  {
    DownBy(Low(octet, |reflectedPoly|), reflectedPoly, 8)
  }

  predicate IsTable(table: seq<Bits>, poly: Bits)
    requires |poly| >= 8
  {
    |table| == 256 && forall i :: 0 <= i < 256 ==> table[i] == HighEntry(Octet(i), poly)
  }

  predicate IsReflectedTable(table: seq<Bits>, reflectedPoly: Bits)
    requires |reflectedPoly| >= 8
  {
    |table| == 256 && forall i :: 0 <= i < 256 ==> table[i] == LowEntry(Octet(i), reflectedPoly)
  }

  method CalculateTable(poly: Bits) returns (table: seq<Bits>)
    requires |poly| >= 8
    ensures IsTable(table, poly)
  {
    hide UpBy, ToBits;
    table := [];
    for dividend := 0 to 256
      invariant |table| == dividend
      invariant forall i :: 0 <= i < dividend ==> table[i] == HighEntry(Octet(i), poly)
    {
      var cur := ShiftEight(Zeros(|poly| - 8) + Octet(dividend), poly);
      table := table + [cur[..|poly|]];
    }
  }

  method CalculateReflectedTable(poly: Bits) returns (table: seq<Bits>)
    requires |poly| >= 8
    ensures IsReflectedTable(table, Mirror(poly))
  {
    hide UpBy, DownBy, ToBits;
    table := [];
    for dividend := 0 to 256
      invariant |table| == dividend
      invariant forall i :: 0 <= i < dividend ==> table[i] == LowEntry(Octet(i), Mirror(poly))
    {
      var reflected := Reflect(Octet(dividend), 8);
      assert Octet(dividend)[..8] == Octet(dividend);
      var start := Zeros(|poly| - 8) + reflected;
      var cur := ShiftEight(start, poly);
      cur := Reflect(cur, |poly|);
      UpMirrorsDown(start, poly, 8);
      assert Mirror(start) == Low(Octet(dividend), |poly|);
      table := table + [cur];
    }
  }

  /** Eight steps towards the top, through the table. */
  lemma UpOctet(x: Bits, poly: Bits)
    requires |x| == |poly| >= 8
    ensures UpBy(x, poly, 8) == Xor(Zeros(8) + x[..|x| - 8], HighEntry(x[|x| - 8..], poly))
  {
    hide UpBy, DownBy, Xor, Low;
    var w := |x|;
    var top, rest := Zeros(w - 8) + x[w - 8..], Zeros(8) + x[..w - 8];
    MirroredParts(x);
    UpMirrorsDown(x, poly, 8);
    UpMirrorsDown(top, poly, 8);
    DownOctet(Mirror(x), Mirror(poly));
    XorMirror(rest, UpBy(top, poly, 8));
    MirrorTwice(UpBy(x, poly, 8));
    MirrorTwice(Xor(rest, UpBy(top, poly, 8)));
  }

  lemma MirroredParts(x: Bits)
    requires |x| >= 8
    ensures Mirror(Zeros(|x| - 8) + x[|x| - 8..]) == Low(Mirror(x)[..8], |x|)
    ensures Mirror(Zeros(8) + x[..|x| - 8]) == Mirror(x)[8..] + Zeros(8)
  {
  }

  // ---- The CRC model

  /** The parameters of a CRC: `initial` and `finalXor` are words of the width
      of `poly`. */
  datatype Model = Model(poly: Bits, initial: Bits, finalXor: Bits, inputReflected: bool, resultReflected: bool) {
    predicate Valid() {
      |poly| >= 8 && |initial| == |finalXor| == |poly|
    }
  }

  /** What a model computes: textbook division of the message, mirrored as the
      model says. */
  function Checksum(m: Model, data: seq<byte>): (r: Bits)
    requires m.Valid()
    ensures |r| == |m.poly|
  {
    var octets := OctetsOf(data);
    var rem := DivideHigh(m.initial, m.poly, if m.inputReflected then MirrorAll(octets) else octets);
    Xor(if m.resultReflected then Mirror(rem) else rem, m.finalXor)
  }

  /** The table-driven path for any model. */
  method GenericPath(m: Model, data: seq<byte>) returns (crc: Bits)
    requires m.Valid()
    ensures crc == Checksum(m, data)
  {
    hide UpBy, ToBits, HighEntry;
    var w := |m.poly|;
    var table := CalculateTable(m.poly);
    ghost var octets := if m.inputReflected then MirrorAll(OctetsOf(data)) else OctetsOf(data);
    crc := m.initial;
    for i := 0 to |data|
      invariant |crc| == w
      invariant crc == DivideHigh(m.initial, m.poly, octets[..i])
    {
      var octet := Octet(data[i]);
      if m.inputReflected {
        octet := Reflect(octet, 8);
        assert Octet(data[i])[..8] == Octet(data[i]);
      }
      assert octet == octets[i];
      crc := Xor(crc, Zeros(w - 8) + octet);
      UpOctet(crc, m.poly);
      IndexOctet(crc[w - 8..]);
      var entry := table[Index(crc[w - 8..])];
      crc := Xor(Zeros(8) + crc[..w - 8], entry);
      assert octets[..i + 1][..i] == octets[..i] && octets[..i + 1][i] == octets[i];
    }
    assert octets[..|data|] == octets;
    if m.resultReflected {
      crc := Reflect(crc, w);
      assert DivideHigh(m.initial, m.poly, octets)[..w] == DivideHigh(m.initial, m.poly, octets);
    }
    crc := Xor(crc, m.finalXor);
  }

  /** Division through a reflected table, the loop shared by `fast_reflected` and
      the C functions. */
  method TableDivide(register: Bits, table: seq<Bits>, data: seq<byte>, ghost poly: Bits) returns (crc: Bits)
    requires |register| == |poly| >= 8 && IsReflectedTable(table, poly)
    ensures crc == Divide(register, poly, OctetsOf(data))
  {
    hide DownBy, ToBits, LowEntry;
    ghost var octets := OctetsOf(data);
    crc := register;
    for i := 0 to |data|
      invariant |crc| == |poly| && crc == Divide(register, poly, octets[..i])
    {
      crc := TableStep(crc, table, data[i], poly);
      assert octets[..i + 1][..i] == octets[..i] && octets[..i + 1][i] == octets[i];
    }
    assert octets[..|data|] == octets;
  }

  /** One octet through a reflected table. */
  method TableStep(register: Bits, table: seq<Bits>, b: byte, ghost poly: Bits) returns (crc: Bits)
    requires |register| == |poly| >= 8 && IsReflectedTable(table, poly)
    ensures crc == DownBy(Xor(register, Low(Octet(b), |poly|)), poly, 8)
  {
    hide DownBy, ToBits;
    var index := Xor(register[..8], Octet(b));
    ghost var x := Xor(register, Low(Octet(b), |poly|));
    DownOctet(x, poly);
    IndexOctet(index);
    assert x[..8] == index && x[8..] == register[8..];
    crc := Xor(register[8..] + Zeros(8), table[Index(index)]);
  }

  /** `fast_reflected`; it refuses models that do not reflect both ends. */
  method FastReflected(m: Model, data: seq<byte>) returns (crc: Option<Bits>)
    requires m.Valid()
    ensures crc.None? <==> !(m.inputReflected && m.resultReflected)
    ensures crc.Some? ==> crc.value == Xor(Divide(m.initial, Mirror(m.poly), OctetsOf(data)), m.finalXor)
  {
    if !m.inputReflected || !m.resultReflected {
      return None;
    }
    var table := CalculateReflectedTable(m.poly);
    var rem := TableDivide(m.initial, table, data, Mirror(m.poly));
    crc := Some(Xor(rem, m.finalXor));
  }

  /** The fast path starts from the initial value without reflecting it. For an
      odd polynomial it agrees with the generic path on a message exactly when
      the initial value is its own mirror image, whatever the message. */
  lemma FastAgreesExactly(m: Model, data: seq<byte>)
    requires m.Valid() && m.inputReflected && m.resultReflected && m.poly[0]
    ensures Xor(Divide(m.initial, Mirror(m.poly), OctetsOf(data)), m.finalXor) == Checksum(m, data)
       <==> Mirror(m.initial) == m.initial
  {
    hide DownBy, UpBy, ToBits;
    var octets := OctetsOf(data);
    DivideMirror(m.initial, m.poly, octets);
    var fast, plain := Divide(m.initial, Mirror(m.poly), octets), Divide(Mirror(m.initial), Mirror(m.poly), octets);
    if Xor(fast, m.finalXor) == Xor(plain, m.finalXor) {
      XorInjective(fast, plain, m.finalXor);
      DivideInjective(m.initial, Mirror(m.initial), Mirror(m.poly), octets);
    }
  }

  /** For any polynomial, the paths agree on all messages exactly when the
      initial value is its own mirror image. */
  lemma FastAgreesOnAll(m: Model)
    requires m.Valid() && m.inputReflected && m.resultReflected
    ensures (forall data :: Xor(Divide(m.initial, Mirror(m.poly), OctetsOf(data)), m.finalXor) == Checksum(m, data))
       <==> Mirror(m.initial) == m.initial
  {
    hide DownBy, UpBy, ToBits;
    if Mirror(m.initial) == m.initial {
      forall data ensures Xor(Divide(m.initial, Mirror(m.poly), OctetsOf(data)), m.finalXor) == Checksum(m, data) {
        DivideMirror(m.initial, m.poly, OctetsOf(data));
      }
    } else {
      var none: seq<byte> := [];
      assert OctetsOf(none) == [] && MirrorAll([]) == [];
      if Xor(m.initial, m.finalXor) == Xor(Mirror(m.initial), m.finalXor) {
        XorInjective(m.initial, Mirror(m.initial), m.finalXor);
      }
      assert Xor(Divide(m.initial, Mirror(m.poly), OctetsOf(none)), m.finalXor) != Checksum(m, none);
    }
  }

  const RIELLO := Model(ToBits(0x1021, 16), ToBits(0xB2AA, 16), ToBits(0, 16), true, true)

  lemma RielloStart()
    ensures RIELLO.Valid() && RIELLO.poly[0] && !RIELLO.initial[0] && RIELLO.initial[15]
  {
    hide ToBits;
    BitAt(0x1021, 16, 0);
    BitAt(0xB2AA, 16, 0);
    BitAt(0xB2AA, 16, 15);
    assert Halved(0xB2AA, 15) == Halved(0x5955, 14) == Halved(0x2CAA, 13) == Halved(0x1655, 12);
    assert Halved(0x1655, 12) == Halved(0xB2A, 11) == Halved(0x595, 10) == Halved(0x2CA, 9);
    assert Halved(0x2CA, 9) == Halved(0x165, 8) == Halved(0xB2, 7) == Halved(0x59, 6);
    assert Halved(0x59, 6) == Halved(0x2C, 5) == Halved(0x16, 4) == Halved(0xB, 3);
    assert Halved(0xB, 3) == Halved(5, 2) == Halved(2, 1) == 1;
  }

  /** The model `crc16_riello` starts from 0xB2AA, so its fast path is wrong on
      every message. */
  lemma RielloDisagrees(data: seq<byte>)
    ensures RIELLO.Valid()
    ensures Xor(Divide(RIELLO.initial, Mirror(RIELLO.poly), OctetsOf(data)), RIELLO.finalXor) != Checksum(RIELLO, data)
  {
    hide ToBits, Divide, Checksum, DownBy;
    RielloStart();
    assert Mirror(RIELLO.initial)[0] == RIELLO.initial[15];
    FastAgreesExactly(RIELLO, data);
  }
}
