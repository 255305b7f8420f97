/** Small facts about products and quotients of real numbers. */
module Reals {

  /** `n` copies of `x` added up. */
  function Times(n: nat, x: real): real {
    if n == 0 then 0.0 else Times(n - 1, x) + x
  }

  lemma {:induction false} TimesIsProduct(n: nat, x: real)
    ensures Times(n, x) == n as real * x
  {
    if n > 0 {
      TimesIsProduct(n - 1, x);
      assert n as real == (n - 1) as real + 1.0;
      Distribute((n - 1) as real, x);
    }
  }

  lemma Distribute(n: real, x: real)
    ensures (n + 1.0) * x == n * x + x
  {
  }

  lemma ScaleOrder(n: real, a: real, b: real)
    requires n > 0.0
    ensures a < b ==> n * a < n * b
  {
    if a < b {
      assert n * (b - a) > 0.0;
    }
  }

  /** Dividing a bounded total by the number of its summands. */
  lemma AverageBetween(total: real, n: nat, lo: real, hi: real)
    requires n > 0 && Times(n, lo) <= total <= Times(n, hi)
    ensures lo <= total / n as real <= hi
  {
    var m := n as real;
    TimesIsProduct(n, lo);
    TimesIsProduct(n, hi);
    QuotientBounds(total, m, lo, hi);
  }

  lemma QuotientBounds(total: real, m: real, lo: real, hi: real)
    requires m > 0.0 && m * lo <= total <= m * hi
    ensures lo <= total / m <= hi
  {
    var avg := total / m;
    assert m * avg == total;
    ScaleOrder(m, avg, lo);
    ScaleOrder(m, hi, avg);
  }

  lemma QuotientMonotone(a: real, b: real, m: real)
    requires m > 0.0 && a <= b
    ensures a / m <= b / m
  {
    var x, y := a / m, b / m;
    assert m * x == a && m * y == b;
    ScaleOrder(m, y, x);
  }
}
