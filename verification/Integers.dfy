/** Small facts about products and quotients of integers. */
module Integers {

  lemma Distribute(x: int, j: int, k: int)
    ensures x * (j + k) == x * j + x * k
  {
  }

  lemma MulOrder(r: int, x: int, y: int)
    requires r >= 0 && x <= y
    ensures r * x <= r * y
  {
    assert r * (y - x) >= 0;
  }

  /** Multiplying by a positive number reflects the order. */
  lemma MulReflectsOrder(s: nat, x: int, y: int)
    requires s > 0
    ensures x >= y ==> s * x >= s * y
    ensures x < y ==> s * x + s <= s * y
  {
    DistributeMinus(s, y, x);
    if x < y {
      DistributeMinus(s, y - x, 1);
      NonNegative(s, y - x - 1);
    } else {
      NonNegative(s, x - y);
      DistributeMinus(s, x, y);
    }
  }

  lemma DistributeMinus(s: int, a: int, b: int)
    ensures s * (a - b) == s * a - s * b
  {
  }

  lemma NonNegative(s: nat, k: nat)
    ensures s * k >= 0
  {
  }

  lemma DivisionIs(a: nat, d: nat, q: nat, r: nat)
    requires d > 0 && a == d * q + r && r < d
    ensures a / d == q && a % d == r
  {
    MulReflectsOrder(d, q, a / d);
    MulReflectsOrder(d, a / d, q);
  }

  lemma QuotientAtLeast(x: int, d: int, q: int)
    requires d > 0
    ensures x / d >= q <==> x >= d * q
  {
    assert x == d * (x / d) + x % d;
    if x / d >= q {
      MulOrder(d, q, x / d);
    } else {
      MulOrder(d, x / d + 1, q);
      assert d * (x / d + 1) == d * (x / d) + d;
    }
  }

  lemma QuotientMonotone(x: int, y: int, d: int)
    requires d > 0 && x <= y
    ensures x / d <= y / d
    ensures x == 0 ==> 0 <= y / d
  {
    QuotientAtLeast(x, d, x / d);
    QuotientAtLeast(y, d, x / d);
    QuotientAtLeast(y, d, 0);
  }
}
