/** The software fallback of the bit-reversal instruction. */
module BitReversal {
  import Arithmetic
  import opened Bits
  import opened FixedPoint

  function BitAt(x: nat, i: nat): nat {
    ShiftRight(x, i) % 2
  }

  /** The bit b with weight 2^n. */
  function Scaled(b: nat, n: nat): nat {
    if b == 0 then 0 else Pow2(n)
  }

  /** The lowest n bits of x in reverse order. */
  function Reversed(x: nat, n: nat): nat
    decreases n
  {
    if n == 0 then 0 else Scaled(x % 2, n - 1) + Reversed(x / 2, n - 1)
  }

  lemma {:induction false} ShrOfHalf(x: nat, k: nat)
    ensures ShiftRight(x / 2, k) == ShiftRight(x, k + 1)
  {
    if k > 0 {
      ShrOfHalf(x, k - 1);
    }
  }

  lemma {:induction false} ReversedBelow(x: nat, n: nat)
    ensures Reversed(x, n) < Pow2(n)
    decreases n
  {
    if n > 0 {
      ReversedBelow(x / 2, n - 1);
    }
  }

  /** One more bit of x goes to the low end. */
  lemma {:induction false} ReversedGrows(x: nat, n: nat)
    ensures Reversed(x, n + 1) == 2 * Reversed(x, n) + BitAt(x, n)
    decreases n
  {
    if n > 0 {
      ReversedGrows(x / 2, n - 1);
      ShrOfHalf(x, n - 1);
    }
  }

  lemma {:induction false} StaysZero(x: nat, n: nat, m: nat)
    requires ShiftRight(x, n) == 0 && n <= m
    ensures ShiftRight(x, m) == 0
  {
    if n < m {
      StaysZero(x, n, m - 1);
    }
  }

  lemma PadOnce(x: nat, n: nat, k: nat)
    requires ShiftRight(x, n) == 0 && n <= k
    ensures Reversed(x, k + 1) == 2 * Reversed(x, k)
  {
    ReversedGrows(x, k);
    StaysZero(x, n, k);
  }

  lemma Doubled(a: nat, m: nat)
    requires m > 0
    ensures a * Pow2(m) == 2 * (a * Pow2(m - 1))
  {
  }

  /** When x has only n bits, reversing more of them appends zeros. */
  lemma {:induction false} ReversedPads(x: nat, n: nat, m: nat)
    requires ShiftRight(x, n) == 0
    ensures Reversed(x, n + m) == Reversed(x, n) * Pow2(m)
    decreases m
  {
    if m > 0 {
      ReversedPads(x, n, m - 1);
      PadOnce(x, n, n + m - 1);
      Doubled(Reversed(x, n), m);
    }
  }

  /** Bit i of the reversal of n bits is bit n - 1 - i. */
  lemma {:induction false} ReversedBit(x: nat, n: nat, i: nat)
    requires i < n
    ensures BitAt(Reversed(x, n), i) == BitAt(x, n - 1 - i)
    decreases n
  {
    var m := n - 1;
    ReversedGrows(x, m);
    var r := Reversed(x, n);
    if i == 0 {
      assert r % 2 == BitAt(x, m);
    } else {
      assert r / 2 == Reversed(x, m);
      ShrOfHalf(r, i - 1);
      ReversedBit(x, m, i - 1);
    }
  }

  lemma {:induction false} HighBit(low: nat, n: nat)
    requires low < Pow2(n)
    ensures BitAt(low + Pow2(n), n) == 1 && Reversed(low + Pow2(n), n) == Reversed(low, n)
    decreases n
  {
    if n > 0 {
      HighBit(low / 2, n - 1);
      ShrOfHalf(low + Pow2(n), n - 1);
    }
  }

  lemma {:induction false} HighBitZero(low: nat, n: nat)
    requires low < Pow2(n)
    ensures BitAt(low, n) == 0
    decreases n
  {
    if n > 0 {
      HighBitZero(low / 2, n - 1);
      ShrOfHalf(low, n - 1);
    }
  }

  /** A bit put on top of n lower ones. */
  lemma TopBit(low: nat, b: nat, n: nat)
    requires low < Pow2(n) && b < 2
    ensures BitAt(Scaled(b, n) + low, n) == b && Reversed(Scaled(b, n) + low, n) == Reversed(low, n)
  {
    if b == 1 {
      HighBit(low, n);
    } else {
      HighBitZero(low, n);
    }
  }

  lemma TwiceStep(x: nat, m: nat, low: nat)
    requires low == Reversed(x / 2, m) && Reversed(low, m) == x / 2 % Pow2(m)
    ensures Reversed(Scaled(x % 2, m) + low, m + 1) == x % (2 * Pow2(m))
  {
    ReversedBelow(x / 2, m);
    TopBit(low, x % 2, m);
    ReversedGrows(Scaled(x % 2, m) + low, m);
    HalvedRemainder(x, Pow2(m));
  }

  /** Reversing twice gives the low n bits back. */
  lemma {:induction false} ReversedTwice(x: nat, n: nat)
    ensures Reversed(Reversed(x, n), n) == x % Pow2(n)
    decreases n
  {
    if n > 0 {
      ReversedTwice(x / 2, n - 1);
      TwiceStep(x, n - 1, Reversed(x / 2, n - 1));
    }
  }

  lemma ShiftStep(input: nat, result: nat, q: nat, j: nat, low: nat)
    requires result + q * TWO32 == input * Pow2(j) + low
    ensures result * 2 % TWO32 + (2 * q + result * 2 / TWO32) * TWO32 == input * Pow2(j + 1) + 2 * low
  {
    assert input * Pow2(j + 1) == 2 * (input * Pow2(j));
  }

  lemma NextBit(x: nat, j: nat, s: nat)
    requires ShiftRight(x, j) < Pow2(s) && ShiftRight(x, j) != 0
    ensures Reversed(x, j + 1) == 2 * Reversed(x, j) + ShiftRight(x, j) % 2
    ensures ShiftRight(x, j + 1) == ShiftRight(x, j) / 2 && s > 0 && ShiftRight(x, j) / 2 < Pow2(s - 1)
  {
    ReversedGrows(x, j);
  }

  lemma Spread(a: int, b: int, c: int, d: int, k: int)
    requires a + b == c + d
    ensures a * k + b * k == c * k + d * k
  {
  }

  lemma Reassociate(q: int, x: int, a: int, b: int)
    ensures q * TWO32 * b == q * b * TWO32 && x * a * b == x * (a * b)
  {
  }

  lemma LastProduct(input: nat, result: nat, q: nat, j: nat, s: nat)
    requires ShiftRight(input / 2, j) == 0
    requires result + q * TWO32 == input * Pow2(j) + Reversed(input / 2, j)
    ensures result * Pow2(s) + q * Pow2(s) * TWO32 == input * Pow2(j + s) + Reversed(input / 2, j + s)
  {
    ReversedPads(input / 2, j, s);
    Pow2Sum(j, s);
    Spread(result, q * TWO32, input * Pow2(j), Reversed(input / 2, j), Pow2(s));
    Reassociate(q, input, Pow2(j), Pow2(s));
  }

  lemma LowBitStays(input: nat, product: int, k: int, rev: nat, out: nat)
    requires product + k * TWO32 == input * 0x8000_0000 + rev
    requires out == (if input % 2 == 0 then 0 else 0x8000_0000) + rev < TWO32
    ensures product % TWO32 == out
  {
    Arithmetic.Remainder(product, TWO32, input / 2 - k, out);
  }

  lemma LastShift(input: nat, result: nat, q: nat, j: nat, s: nat, top: nat)
    requires input < TWO32 && j + s == top == 31 && ShiftRight(input / 2, j) == 0
    requires result + q * TWO32 == input * Pow2(j) + Reversed(input / 2, j)
    ensures result * Pow2(s) % TWO32 == Reversed(input, top + 1) < TWO32
  {
    Pow2Values();
    ReversedBelow(input, top + 1);
    LastProduct(input, result, q, j, s);
    var rev := Reversed(input / 2, top);
    assert Reversed(input, top + 1) == Scaled(input % 2, top) + rev;
    LowBitStays(input, result * Pow2(s), q * Pow2(s), rev, Reversed(input, top + 1));
  }

  /** The loop of __RBIT: it stops as soon as the remaining bits are zero, and one last shift makes up for the turns it
      has saved. The high bits of the value that it starts from are shifted out again. */
  method Rbit(input: nat) returns (result: nat)
    requires input < TWO32
    ensures result == Reversed(input, 32) < TWO32
  {
    var s := 31;
    result := input;
    var value := input / 2;
    ghost var j: nat, q: nat := 0, 0;
    Pow2Values();
    while value != 0
      invariant j <= 31 && s == 31 - j
      invariant value == ShiftRight(input / 2, j) && value < Pow2(s)
      invariant result + q * TWO32 == input * Pow2(j) + Reversed(input / 2, j)
    {
      ShiftStep(input, result, q, j, Reversed(input / 2, j));
      NextBit(input / 2, j, s);
      q := 2 * q + result * 2 / TWO32;
      result := result * 2 % TWO32;
      result := result + value % 2;
      s := s - 1;
      value := value / 2;
      j := j + 1;
    }
    LastShift(input, result, q, j, s, 31);
    result := result * Pow2(s) % TWO32;
  }

  /** The result is the mirror image of the value, and a second reversal restores it. */
  lemma RbitMirrors(x: nat, width: nat, i: nat)
    requires width == 32 && x < TWO32 && i < width
    ensures BitAt(Reversed(x, width), i) == BitAt(x, width - 1 - i)
    ensures Reversed(Reversed(x, width), width) == x
  {
    ReversedBit(x, width, i);
    ReversedTwice(x, width);
    Pow2Values();
    Arithmetic.SmallRemainder(x, Pow2(width));
  }
}
