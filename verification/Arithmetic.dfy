/** Facts about products and quotients of natural numbers. */
module Arithmetic {

  lemma ProductOrder(a: nat, x: nat, y: nat)
    requires x <= y
    ensures 0 <= a * x <= a * y
  {
  }

  lemma QuotientBounds(x: nat, d: nat)
    requires d > 0
    ensures 0 <= x / d && d * (x / d) <= x < d * (x / d) + d
  {
  }

  lemma QuotientBelow(x: nat, d: nat, b: nat)
    requires d > 0 && x < d * b
    ensures 0 <= x / d < b
  {
    QuotientBounds(x, d);
    if x / d >= b {
      ProductOrder(d, b, x / d);
      assert false;
    }
  }

  lemma QuotientAtLeast(x: nat, d: nat, b: nat)
    requires d > 0 && x >= d * b
    ensures x / d >= b
  {
    QuotientBounds(x, d);
    assert d * (x / d + 1) == d * (x / d) + d;
    if x / d < b {
      ProductOrder(d, x / d + 1, b);
      assert false;
    }
  }

  lemma ProductQuotient(d: nat, b: nat)
    requires d > 0
    ensures d * b / d == b
  {
    assert d * (b + 1) == d * b + d;
    QuotientBelow(d * b, d, b + 1);
    QuotientAtLeast(d * b, d, b);
  }

  lemma QuotientOrder(x: nat, y: nat, d: nat)
    requires x <= y && d > 0
    ensures 0 <= x / d <= y / d
  {
    QuotientBounds(x, d);
    QuotientAtLeast(y, d, x / d);
  }
}
