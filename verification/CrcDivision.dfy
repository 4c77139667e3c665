/** Polynomial division over bits, in the two directions CRC implementations use.
    A word is the sequence of its bits, lowest bit first. */
module CrcDivision {

  type Bits = seq<bool>

  function Zeros(n: nat): (r: Bits)
    ensures |r| == n && forall i :: 0 <= i < n ==> !r[i]
  {
    seq(n, i => false)
  }

  function Xor(a: Bits, b: Bits): (r: Bits)
    requires |a| == |b|
    ensures |r| == |a| && forall i :: 0 <= i < |a| ==> r[i] == (a[i] != b[i])
  {
    seq(|a|, i requires 0 <= i < |a| => a[i] != b[i])
  }

  /** The bits in opposite order. */
  function Mirror(a: Bits): (r: Bits)
    ensures |r| == |a| && forall i :: 0 <= i < |a| ==> r[i] == a[|a| - 1 - i]
  {
    seq(|a|, i requires 0 <= i < |a| => a[|a| - 1 - i])
  }

  // ---- Single steps

  /** One step towards the high end: the top bit leaves the register. */
  function Up(x: Bits, poly: Bits): (r: Bits)
    requires |x| == |poly| > 0
    ensures |r| == |x|
  {
    var shifted := [false] + x[..|x| - 1];
    if x[|x| - 1] then Xor(shifted, poly) else shifted
  }

  /** One step towards the low end: the lowest bit leaves the register. */
  function Down(x: Bits, poly: Bits): (r: Bits)
    requires |x| == |poly| > 0
    ensures |r| == |x|
  {
    var shifted := x[1..] + [false];
    if x[0] then Xor(shifted, poly) else shifted
  }

  function DownBy(x: Bits, poly: Bits, n: nat): (r: Bits)
    requires |x| == |poly| > 0
    ensures |r| == |x|
    decreases n
  {
    if n == 0 then x else DownBy(Down(x, poly), poly, n - 1)
  }

  function UpBy(x: Bits, poly: Bits, n: nat): (r: Bits)
    requires |x| == |poly| > 0
    ensures |r| == |x|
    decreases n
  {
    if n == 0 then x else UpBy(Up(x, poly), poly, n - 1)
  }

  lemma XorMirror(a: Bits, b: Bits)
    requires |a| == |b|
    ensures Mirror(Xor(a, b)) == Xor(Mirror(a), Mirror(b))
  {
  }

  lemma StepMirror(x: Bits, poly: Bits)
    requires |x| == |poly| > 0
    ensures Mirror(Up(x, poly)) == Down(Mirror(x), Mirror(poly))
  {
    hide Xor;
    var shifted := [false] + x[..|x| - 1];
    assert Mirror(shifted) == Mirror(x)[1..] + [false];
    XorMirror(shifted, poly);
  }

  /** The two directions are mirror images. */
  lemma {:induction false} UpMirrorsDown(x: Bits, poly: Bits, n: nat)
    requires |x| == |poly| > 0
    ensures Mirror(UpBy(x, poly, n)) == DownBy(Mirror(x), Mirror(poly), n)
    decreases n
  {
    hide Up, Down;
    if n > 0 {
      StepMirror(x, poly);
      UpMirrorsDown(Up(x, poly), poly, n - 1);
    }
  }

  lemma MirrorTwice(x: Bits)
    ensures Mirror(Mirror(x)) == x
  {
  }

  lemma DownLinear(x: Bits, y: Bits, poly: Bits)
    requires |x| == |y| == |poly| > 0
    ensures Down(Xor(x, y), poly) == Xor(Down(x, poly), Down(y, poly))
  {
  }

  lemma {:induction false} DownByLinear(x: Bits, y: Bits, poly: Bits, n: nat)
    requires |x| == |y| == |poly| > 0
    ensures DownBy(Xor(x, y), poly, n) == Xor(DownBy(x, poly, n), DownBy(y, poly, n))
    decreases n
  {
    hide Down, Xor;
    if n > 0 {
      DownLinear(x, y, poly);
      DownByLinear(Down(x, poly), Down(y, poly), poly, n - 1);
    }
  }

  /** A word whose low `n` bits are zero is merely shifted by `n` steps. */
  lemma {:induction false} DownShifts(x: Bits, poly: Bits, n: nat)
    requires |x| == |poly| > 0 && n <= |x|
    requires forall i :: 0 <= i < n ==> !x[i]
    ensures DownBy(x, poly, n) == x[n..] + Zeros(n)
    decreases n
  {
    if n == 0 {
      assert x[0..] + Zeros(0) == x;
    } else {
      var next := x[1..] + [false];
      DownShifts(next, poly, n - 1);
      assert next[n - 1..] + Zeros(n - 1) == x[n..] + Zeros(n);
    }
  }

  /** `b` in the low bits of a word of width `w`. */
  function Low(b: Bits, w: nat): (r: Bits)
    requires |b| <= w
    ensures |r| == w
  {
    b + Zeros(w - |b|)
  }

  lemma SplitLow(x: Bits)
    requires |x| >= 8
    ensures x == Xor(Zeros(8) + x[8..], Low(x[..8], |x|))
  {
  }

  /** Eight steps shift the low octet out and add its remainder, so a table of
      the 256 remainders replaces them. */
  lemma DownOctet(x: Bits, poly: Bits)
    requires |x| == |poly| >= 8
    ensures DownBy(x, poly, 8) == Xor(x[8..] + Zeros(8), DownBy(Low(x[..8], |x|), poly, 8))
  {
    hide DownBy, Low, Xor;
    var high := Zeros(8) + x[8..];
    SplitLow(x);
    DownByLinear(high, Low(x[..8], |x|), poly, 8);
    DownShifts(high, poly, 8);
    assert high[8..] == x[8..];
  }

  // ---- Dividing a message

  predicate Octets(data: seq<Bits>) {
    forall i :: 0 <= i < |data| ==> |data[i]| == 8
  }

  /** Bit-serial division of a message, lowest bits first. */
  function Divide(register: Bits, poly: Bits, data: seq<Bits>): (r: Bits)
    requires |register| == |poly| >= 8 && Octets(data)
    ensures |r| == |register|
  {
    if data == [] then register
    else
      var before := Divide(register, poly, data[..|data| - 1]);
      DownBy(Xor(before, Low(data[|data| - 1], |register|)), poly, 8)
  }

  /** Bit-serial division with the highest bits first, as textbooks give it. */
  function DivideHigh(register: Bits, poly: Bits, data: seq<Bits>): (r: Bits)
    requires |register| == |poly| >= 8 && Octets(data)
    ensures |r| == |register|
  {
    if data == [] then register
    else
      var before := DivideHigh(register, poly, data[..|data| - 1]);
      UpBy(Xor(before, Zeros(|register| - 8) + data[|data| - 1]), poly, 8)
  }

  /** Dividing in chunks is dividing the whole. */
  lemma {:induction false} DivideChunks(register: Bits, poly: Bits, a: seq<Bits>, b: seq<Bits>)
    requires |register| == |poly| >= 8 && Octets(a) && Octets(b)
    ensures Divide(Divide(register, poly, a), poly, b) == Divide(register, poly, a + b)
  {
    hide DownBy, Xor, Low;
    if b == [] {
      assert a + b == a;
    } else {
      DivideChunks(register, poly, a, b[..|b| - 1]);
      assert (a + b)[..|a + b| - 1] == a + b[..|b| - 1];
    }
  }

  function MirrorAll(data: seq<Bits>): (r: seq<Bits>)
    ensures |r| == |data| && forall i :: 0 <= i < |data| ==> r[i] == Mirror(data[i])
  {
    seq(|data|, i requires 0 <= i < |data| => Mirror(data[i]))
  }

  /** Dividing mirrored octets towards the high end mirrors dividing the octets
      towards the low end. */
  lemma {:induction false} DivideMirror(register: Bits, poly: Bits, data: seq<Bits>)
    requires |register| == |poly| >= 8 && Octets(data)
    ensures Mirror(DivideHigh(register, poly, MirrorAll(data))) == Divide(Mirror(register), Mirror(poly), data)
  {
    hide UpBy, DownBy, Xor;
    if data != [] {
      var init, last := data[..|data| - 1], data[|data| - 1];
      DivideMirror(register, poly, init);
      assert MirrorAll(data)[..|data| - 1] == MirrorAll(init);
      var before := DivideHigh(register, poly, MirrorAll(init));
      var high := Zeros(|register| - 8) + Mirror(last);
      XorMirror(before, high);
      assert Mirror(high) == Low(last, |register|);
      UpMirrorsDown(Xor(before, high), poly, 8);
    }
  }

  // ---- The register is never lost

  /** A step can be undone when the polynomial's constant term is one. */
  lemma DownInjective(x: Bits, y: Bits, poly: Bits)
    requires |x| == |y| == |poly| > 0 && poly[|poly| - 1]
    requires Down(x, poly) == Down(y, poly)
    ensures x == y
  {
    var last := |x| - 1;
    assert Down(x, poly)[last] == x[0] && Down(y, poly)[last] == y[0];
    forall i | 1 <= i < |x| ensures x[i] == y[i] {
      assert Down(x, poly)[i - 1] == (x[i] != (x[0] && poly[i - 1]));
      assert Down(y, poly)[i - 1] == (y[i] != (y[0] && poly[i - 1]));
    }
  }

  lemma {:induction false} DownByInjective(x: Bits, y: Bits, poly: Bits, n: nat)
    requires |x| == |y| == |poly| > 0 && poly[|poly| - 1]
    requires DownBy(x, poly, n) == DownBy(y, poly, n)
    ensures x == y
    decreases n
  {
    hide Down;
    if n > 0 {
      DownByInjective(Down(x, poly), Down(y, poly), poly, n - 1);
      DownInjective(x, y, poly);
    }
  }

  lemma {:induction false} DivideInjective(x: Bits, y: Bits, poly: Bits, data: seq<Bits>)
    requires |x| == |y| == |poly| >= 8 && poly[|poly| - 1] && Octets(data)
    requires Divide(x, poly, data) == Divide(y, poly, data)
    ensures x == y
  {
    hide DownBy;
    if data != [] {
      var init, last := data[..|data| - 1], Low(data[|data| - 1], |x|);
      var u, v := Divide(x, poly, init), Divide(y, poly, init);
      DownByInjective(Xor(u, last), Xor(v, last), poly, 8);
      XorInjective(u, v, last);
      DivideInjective(x, y, poly, init);
    }
  }

  lemma XorInjective(x: Bits, y: Bits, z: Bits)
    requires |x| == |y| == |z| && Xor(x, z) == Xor(y, z)
    ensures x == y
  {
    forall i | 0 <= i < |x| ensures x[i] == y[i] {
      assert Xor(x, z)[i] == Xor(y, z)[i];
    }
  }

  // ---- Wider registers

  /** A narrow word in a wider register. */
  lemma DownWide(x: Bits, poly: Bits, extra: nat)
    requires |x| == |poly| > 0
    ensures Down(x + Zeros(extra), poly + Zeros(extra)) == Down(x, poly) + Zeros(extra)
  {
    assert (x + Zeros(extra))[1..] + [false] == x[1..] + [false] + Zeros(extra);
    if x[0] {
      XorWide(x[1..] + [false], poly, extra);
    }
  }

  lemma XorWide(x: Bits, y: Bits, extra: nat)
    requires |x| == |y|
    ensures Xor(x + Zeros(extra), y + Zeros(extra)) == Xor(x, y) + Zeros(extra)
  {
  }

  lemma {:induction false} DownByWide(x: Bits, poly: Bits, extra: nat, n: nat)
    requires |x| == |poly| > 0
    ensures DownBy(x + Zeros(extra), poly + Zeros(extra), n) == DownBy(x, poly, n) + Zeros(extra)
    decreases n
  {
    hide Down;
    if n > 0 {
      DownWide(x, poly, extra);
      DownByWide(Down(x, poly), poly, extra, n - 1);
    }
  }

  lemma {:induction false} DivideWide(register: Bits, poly: Bits, extra: nat, data: seq<Bits>)
    requires |register| == |poly| >= 8 && Octets(data)
    ensures Divide(register + Zeros(extra), poly + Zeros(extra), data) == Divide(register, poly, data) + Zeros(extra)
  {
    hide DownBy;
    if data != [] {
      var init, last := data[..|data| - 1], data[|data| - 1];
      DivideWide(register, poly, extra, init);
      var before := Divide(register, poly, init);
      XorWide(before, Low(last, |register|), extra);
      assert Low(last, |register| + extra) == Low(last, |register|) + Zeros(extra);
      DownByWide(Xor(before, Low(last, |register|)), poly, extra, 8);
    }
  }
}
