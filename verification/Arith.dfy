/** The few facts about products and quotients that the layers above rely on. */
module Arith {

  /** Quotient and remainder are determined by `a == q * n + r` with `r < n`. */
  lemma DivModUnique(a: int, n: int, q: int, r: int)
    requires n > 0 && a == q * n + r && 0 <= r < n
    ensures a / n == q && a % n == r
  {
    var d := a / n - q;
    assert a == a / n * n + a % n;
    assert d * n == r - a % n by {
      assert d * n == a / n * n - q * n;
    }
    MultipleAtLeast(d, n);
  }

  lemma MultipleAtLeast(d: int, n: int)
    requires n > 0
    ensures d >= 1 ==> d * n >= n
    ensures d <= -1 ==> d * n <= -n
  {
    if d >= 1 {
      Distribute(d - 1, 1, n);
      ProductNonNegative(d - 1, n);
    } else if d <= -1 {
      Distribute(-d - 1, 1, n);
      ProductNonNegative(-d - 1, n);
    }
  }

  lemma ProductNonNegative(a: int, b: int)
    requires a >= 0 && b >= 0
    ensures a * b >= 0
  {
  }

  lemma Distribute(a: int, b: int, n: int)
    ensures (a + b) * n == a * n + b * n
  {
  }

  lemma MulMonotone(a: int, b: int, n: int)
    requires a <= b && n >= 0
    ensures a * n <= b * n && b * n - a * n == (b - a) * n
    ensures a < b ==> a * n + n <= b * n
  {
    Distribute(a, b - a, n);
    ProductNonNegative(b - a, n);
    if a < b {
      Distribute(b - a - 1, 1, n);
      ProductNonNegative(b - a - 1, n);
    }
  }

  lemma MultipleMod(q: int, n: int)
    requires n > 0
    ensures q * n / n == q && q * n % n == 0
  {
    DivModUnique(q * n, n, q, 0);
  }

  /** A remainder in two parts. */
  lemma ModSplit(v: nat, a: nat, b: nat)
    requires a > 0 && b > 0
    ensures a * b > 0 && v % (a * b) == v % a + a * (v / a % b)
  {
    var q, r := v / a / b, v / a % b;
    assert v == v / a * a + v % a;
    assert v / a == q * b + r;
    assert v / a * a == q * b * a + r * a by { Distribute(q * b, r, a); }
    assert q * b * a == q * (a * b);
    MulMonotone(1, a, b);
    MulMonotone(r, b, a);
    DivModUnique(v, a * b, q, r * a + v % a);
  }
}
