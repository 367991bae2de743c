/** Powers of two, leading zeros, and bitwise operators on natural numbers. */
module Bits {
  import Arithmetic

  function Pow2(k: nat): (r: nat)
    ensures r > 0
  {
    if k == 0 then 1 else 2 * Pow2(k - 1)
  }

  lemma {:induction false} Pow2Sum(i: nat, j: nat)
    ensures Pow2(i + j) == Pow2(i) * Pow2(j)
  {
    if i > 0 {
      Pow2Sum(i - 1, j);
      assert Pow2(i + j) == 2 * (Pow2(i - 1) * Pow2(j));
    }
  }

  lemma Pow2Values()
    ensures Pow2(8) == 0x100 && Pow2(16) == 0x1_0000 && Pow2(17) == 0x2_0000
    ensures Pow2(31) == 0x8000_0000 && Pow2(32) == 0x1_0000_0000
  {
    assert Pow2(4) == 16;
    Pow2Sum(4, 4);
    Pow2Sum(8, 8);
    assert Pow2(17) == 2 * Pow2(16);
    Pow2Sum(16, 16);
    assert Pow2(32) == 2 * Pow2(31);
  }

  lemma {:induction false} Pow2Mono(i: nat, j: nat)
    requires i <= j
    ensures Pow2(i) <= Pow2(j)
  {
    if i < j {
      Pow2Mono(i, j - 1);
    }
  }

  lemma ShiftOnce(x: nat, k: nat)
    requires k > 0
    ensures x * Pow2(k) == 2 * x * Pow2(k - 1) == 2 * (x * Pow2(k - 1))
  {
  }

  /** The number of zeros above the highest one of a 32-bit value. */
  function Clz(x: nat): (k: nat)
    requires 0 < x < 0x1_0000_0000
    ensures 0x8000_0000 <= x * Pow2(k) < 0x1_0000_0000
    decreases 0x1_0000_0000 - x
  {
    if x >= 0x8000_0000 then 0 else var k := 1 + Clz(2 * x); ShiftOnce(x, k); k
  }

  function BothOdd(x: nat, y: nat): nat {
    if x % 2 == 1 && y % 2 == 1 then 1 else 0
  }

  /** Bitwise and. */
  function And(x: nat, y: nat): (r: nat)
    ensures r <= x
  {
    if x == 0 || y == 0 then 0 else BothOdd(x, y) + 2 * And(x / 2, y / 2)
  }

  lemma AndStep(x: nat, y: nat)
    ensures And(x, y) == BothOdd(x, y) + 2 * And(x / 2, y / 2)
  {
  }

  lemma {:induction false} AndBelow(x: nat, y: nat)
    ensures And(x, y) <= y
  {
    if x != 0 && y != 0 {
      AndBelow(x / 2, y / 2);
    }
  }

  /** x & ~y: the bits of x that y has not. */
  function AndNot(x: nat, y: nat): nat {
    x - And(x, y)
  }

  lemma AndOdd(x: nat, p: nat)
    requires x > 0 && p > 0
    ensures And(x, 2 * p - 1) == x % 2 + 2 * And(x / 2, p - 1)
  {
    var y := 2 * p - 1;
    assert y % 2 == 1 && y / 2 == p - 1;
    AndStep(x, y);
  }

  lemma HalvedRemainder(x: nat, p: nat)
    requires p > 0
    ensures x % (2 * p) == x % 2 + 2 * (x / 2 % p)
  {
    var q := x / 2 / p;
    assert x / 2 == q * p + x / 2 % p;
    Arithmetic.Remainder(x, 2 * p, q, x % 2 + 2 * (x / 2 % p)) by {
      assert q * (2 * p) == 2 * (q * p);
    }
  }

  lemma AndMaskStep(x: nat, p: nat)
    requires x > 0 && p > 0 && And(x / 2, p - 1) == x / 2 % p
    ensures And(x, 2 * p - 1) == x % (2 * p)
  {
    AndOdd(x, p);
    HalvedRemainder(x, p);
  }

  /** Masking with k ones is the remainder modulo 2^k. */
  lemma {:induction false} AndMask(x: nat, k: nat)
    ensures And(x, Pow2(k) - 1) == x % Pow2(k)
  {
    if x == 0 {
      Arithmetic.SmallRemainder(0, Pow2(k));
    } else if k == 0 {
      assert Pow2(k) == 1;
    } else {
      AndMask(x / 2, k - 1);
      AndMaskStep(x, Pow2(k - 1));
    }
  }

  ghost predicate IsPow2(a: nat) {
    exists k: nat :: Pow2(k) == a
  }

  /** x shifted right by k. */
  function ShiftRight(x: nat, k: nat): nat {
    if k == 0 then x else ShiftRight(x, k - 1) / 2
  }

  lemma HalvedQuotient(x: nat, p: nat)
    requires p > 0
    ensures x / p / 2 == x / (2 * p)
  {
    var q, r := x / p, x % p;
    var b := q % 2;
    assert x == q * p + r && q == 2 * (q / 2) + b;
    assert q * p == q / 2 * (2 * p) + b * p;
    assert b * p == if b == 0 then 0 else p;
    Arithmetic.Remainder(x, 2 * p, q / 2, b * p + r);
  }

  lemma {:induction false} ShiftRightDivides(x: nat, k: nat)
    ensures ShiftRight(x, k) == x / Pow2(k)
  {
    if k > 0 {
      ShiftRightDivides(x, k - 1);
      HalvedQuotient(x, Pow2(k - 1));
    }
  }

  /** Bitwise or. */
  function Or(x: nat, y: nat): nat {
    if x == 0 then y else if y == 0 then x
    else (if x % 2 + y % 2 > 0 then 1 else 0) + 2 * Or(x / 2, y / 2)
  }

  lemma OrEven(z: nat, y: nat)
    requires z > 0 && y > 0
    ensures Or(2 * z, y) == y % 2 + 2 * Or(z, y / 2)
  {
    assert 2 * z % 2 == 0 && 2 * z / 2 == z;
  }

  /** Or-ing in k low bits under a shifted value adds them. */
  lemma {:induction false} OrDisjoint(x: nat, y: nat, k: nat)
    requires y < Pow2(k)
    ensures Or(x * Pow2(k), y) == x * Pow2(k) + y
    decreases k
  {
    if k > 0 && x > 0 && y > 0 {
      OrDisjoint(x, y / 2, k - 1);
      ShiftOnce(x, k);
      Arithmetic.NonNegative(x, Pow2(k - 1));
      OrEven(x * Pow2(k - 1), y);
    }
  }
}
