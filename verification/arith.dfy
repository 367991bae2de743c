/** Facts about products and quotients of variables that the solver does not find by itself. */
module Arithmetic {
  lemma MulMono(a: int, b: int, k: int)
    requires a <= b && 0 <= k
    ensures a * k <= b * k
  {
  }

  lemma MulBound(a: int, b: int, p: int, q: int)
    requires 0 <= p && 0 <= q
    requires -p <= a <= p && -q <= b <= q
    ensures -(p * q) <= a * b <= p * q
  {
  }

  lemma NonNegative(a: int, b: int)
    requires 0 <= a && 0 <= b
    ensures 0 <= a * b && (a == 0 ==> a * b == 0) && (a > 0 && b > 0 ==> a * b > 0)
  {
  }

  lemma CancelFactor(k: int, a: int, b: int)
    requires k > 0 && k * a <= k * b
    ensures a <= b
  {
  }

  lemma CancelStrictly(k: int, a: int, b: int)
    requires k > 0 && k * a < k * b
    ensures a < b
  {
  }

  lemma Associate(a: int, b: int, c: int)
    ensures a * (b * c) == a * b * c
  {
  }

  lemma Floor(a: int, b: int)
    requires b > 0
    ensures a / b * b <= a < a / b * b + b
  {
  }

  /** The only multiple of d strictly between -d and d is zero. */
  lemma NoMultiple(e: int, d: int)
    requires -d < e * d < d
    ensures e == 0
  {
  }

  /** Quotient and remainder are the only values in range that make up x. */
  lemma Remainder(x: int, d: int, q: int, r: int)
    requires 0 <= r < d && x == q * d + r
    ensures x % d == r && x / d == q
  {
    var e := x / d - q;
    assert e * d == r - x % d by { assert x == (x / d) * d + x % d; }
    assert e == 0 by { NoMultiple(e, d); }
  }

  lemma SmallRemainder(x: nat, d: nat)
    requires x < d
    ensures x % d == x && x / d == 0
  {
  }
}
