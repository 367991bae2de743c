/** The Newton reciprocals. With p = 2^(bits - 1) the normalised input n lies in [p, 2p), the estimate x in
    [0, 2p) stands for x / p and the input for n / 2p. */
module Reciprocal {
  import opened Arithmetic
  import opened FixedPoint
  import opened Bits

  /** Two minus input times estimate, in the scale of the estimate. */
  function Correction(n: int, x: int, p: int): int
    requires p > 0
  {
    2 * p - 1 - n * x / (2 * p)
  }

  /** What one turn of the loop stores. */
  function Newton(n: int, x: int, p: int): int
    requires p > 0
  {
    x * Correction(n, x, p) / p
  }

  /** One minus input times estimate, scaled by 2 * p * p to a whole number. */
  function Residual(n: int, x: int, p: int): int {
    2 * p * p - n * x
  }

  lemma StepBelow(q: int, d: int, y: int)
    requires d > 0 && q * d <= y < d * d
    ensures q * d + d <= d * d
  {
    CancelStrictly(d, q, d);
    MulMono(q + 1, d, d);
    assert (q + 1) * d == q * d + d;
  }

  lemma Complement(y: int, d: int)
    requires 0 < d && 0 <= y < d * d
    ensures 0 <= d - 1 - y / d < d
    ensures d * d - y - d <= (d - 1 - y / d) * d < d * d - y
  {
    Floor(y, d);
    var q := y / d;
    assert (d - 1 - q) * d == d * d - d - q * d;
    CancelFactor(d, q + 1, d) by { assert d * (q + 1) == q * d + d; StepBelow(q, d, y); }
  }

  lemma ProductBelow(a: int, b: int, d: int)
    requires 0 <= a < d && 0 <= b < d
    ensures 0 <= a * b < d * d
  {
    assert a * b <= a * d;
    assert a * d < d * d;
  }

  /** The correction is in range, and truncation makes it low by at most one unit. */
  lemma CorrectionBounds(n: int, x: int, p: int)
    requires 0 < p <= n < 2 * p && 0 <= x < 2 * p
    ensures 0 <= Correction(n, x, p) < 2 * p
    ensures 4 * p * p - n * x - 2 * p <= Correction(n, x, p) * (2 * p) < 4 * p * p - n * x
  {
    ProductBelow(n, x, 2 * p);
    Complement(n * x, 2 * p);
    assert (2 * p) * (2 * p) == 4 * p * p;
  }

  /** Completing the square: input * estimate * (2 - input * estimate) never exceeds one. */
  lemma Square(y: int, p: int)
    ensures y * (4 * p * p - y) == 4 * p * p * p * p - (2 * p * p - y) * (2 * p * p - y)
    ensures y * (4 * p * p - y) <= 4 * p * p * p * p
  {
    var e := 2 * p * p - y;
    assert y == 2 * p * p - e;
    assert e * e >= 0;
    assert (2 * p * p) * (2 * p * p) == 4 * p * p * p * p;
    assert y * (4 * p * p - y) == (2 * p * p - e) * (2 * p * p + e);
  }

  lemma Between(y: nat, c: int, u: int, d: int)
    requires c - d <= u < c
    ensures y * c - d * y <= y * u <= y * c && (y > 0 ==> y * u < y * c)
  {
    NonNegative(y, c - u);
    NonNegative(y, u - (c - d));
    assert y * (c - u) == y * c - y * u && y * (u - (c - d)) == y * u - (y * c - d * y);
  }

  /** Bounds on the exact product of input, estimate and correction. */
  lemma ExactProduct(y: int, t: int, p: int)
    requires 0 < p && 0 <= y
    requires 4 * p * p - y - 2 * p <= t * (2 * p) < 4 * p * p - y
    ensures y * t * (2 * p) <= 4 * p * p * p * p
    ensures y > 0 ==> y * t * (2 * p) < 4 * p * p * p * p
    ensures y * t * (2 * p) >= 4 * p * p * p * p - (2 * p * p - y) * (2 * p * p - y) - 2 * p * y
  {
    Square(y, p);
    Associate(y, t, 2 * p);
    Between(y, 4 * p * p - y, t * (2 * p), 2 * p);
  }

  /** The stored quotient r of x * t, multiplied back by the input. */
  lemma StoredProduct(n: int, w: int, p: int)
    requires 0 < p && 0 <= n && 0 <= w
    ensures n * w - n * p + n <= n * (w / p) * p <= n * w
  {
    var r := w / p;
    Floor(w, p);
    Associate(n, r, p);
    MulMono(r * p, w, n);
    MulMono(w - p + 1, r * p, n);
    assert (w - p + 1) * n == n * w - n * p + n;
  }

  lemma LostBelow(n: int, p: int)
    requires 0 < p && 0 <= n < 2 * p
    ensures (n * p - n) * (2 * p) < 4 * p * p * p
  {
    assert n * p - n == n * (p - 1);
    MulMono(n, 2 * p, p - 1);
    MulMono(n * (p - 1), 2 * p * (p - 1), 2 * p);
    assert 2 * p * (p - 1) * (2 * p) == 4 * p * p * p - 4 * p * p;
    assert p * p > 0;
  }

  lemma ResidualIdentity(s: int, p: int)
    ensures (2 * p * p - s) * (2 * p * p) == 4 * p * p * p * p - s * p * (2 * p)
    ensures p * (2 * p) * s == s * p * (2 * p) && p * (2 * p) * (2 * p * p) == 4 * p * p * p * p
  {
  }

  lemma SplitIdentity(z: int, n: int, p: int)
    ensures (z - n * p + n) * (2 * p) == z * (2 * p) - (n * p - n) * (2 * p)
  {
  }

  /** From bounds on s * p, where s is input times estimate, to bounds on the scaled residual. */
  lemma Scaled(s: int, z: int, n: int, p: int, e: int)
    requires 0 < p && 0 <= n < 2 * p
    requires z - n * p + n <= s * p <= z
    requires 4 * p * p * p * p - e <= z * (2 * p) <= 4 * p * p * p * p
    ensures s <= 2 * p * p
    ensures (2 * p * p - s) * (2 * p * p) < e + 4 * p * p * p
  {
    ResidualIdentity(s, p);
    SplitIdentity(z, n, p);
    MulMono(s * p, z, 2 * p);
    MulMono(z - n * p + n, s * p, 2 * p);
    LostBelow(n, p);
    CancelFactor(p * (2 * p), s, 2 * p * p) by {
      assert p * (2 * p) > 0;
    }
  }

  lemma OvershootIdentity(s: int, p: int, r: int)
    ensures s * (p * (2 * p)) == s * p * (2 * p)
    ensures p * r * (p * (2 * p)) == (p * (p * (2 * p))) * r && 4 * p * p * p * p == (p * (p * (2 * p))) * (2 * p)
  {
  }

  lemma NoOvershoot(n: int, r: int, p: int, z: int)
    requires 0 < p <= n && 0 <= r && n * r * p <= z && z * (2 * p) < 4 * p * p * p * p
    ensures r < 2 * p
  {
    var k := p * (2 * p);
    MulMono(p, n, r);
    MulMono(p * r, n * r, k);
    MulMono(n * r * p, z, 2 * p);
    OvershootIdentity(n * r, p, r);
    NonNegative(p, k);
    CancelStrictly(p * k, r, 2 * p);
  }

  lemma NewtonFrom(n: int, x: int, y: int, t: int, w: int, p: int)
    requires 0 < p <= n && n < 2 * p
    requires 0 <= y && 0 <= w && n * w == y * t && (y == 0 ==> w == 0)
    requires 4 * p * p - y - 2 * p <= t * (2 * p) < 4 * p * p - y
    ensures 0 <= w / p < 2 * p
    ensures n * (w / p) <= 2 * p * p
    ensures (2 * p * p - n * (w / p)) * (2 * p * p)
            < (2 * p * p - y) * (2 * p * p - y) + 2 * p * y + 4 * p * p * p
  {
    var r := w / p;
    ExactProduct(y, t, p);
    StoredProduct(n, w, p);
    Scaled(n * r, y * t, n, p, (2 * p * p - y) * (2 * p * p - y) + 2 * p * y);
    if y > 0 {
      NoOvershoot(n, r, p, y * t);
    }
  }

  /** One turn on a positive input: the estimate stays in range without clipping, it never
      overestimates, and its residual is the square of the old one up to truncation. */
  lemma NewtonStep(n: int, x: int, p: int)
    requires 0 < p <= n < 2 * p && 0 <= x < 2 * p
    ensures 0 <= Newton(n, x, p) < 2 * p
    ensures 0 <= Residual(n, Newton(n, x, p), p)
    ensures Residual(n, Newton(n, x, p), p) * (2 * p * p)
            < Residual(n, x, p) * Residual(n, x, p) + 2 * p * (n * x) + 4 * p * p * p
  {
    var t, y := Correction(n, x, p), n * x;
    CorrectionBounds(n, x, p);
    NonNegative(x, t);
    NonNegative(n, x);
    NewtonFrom(n, x, y, t, x * t, p) by { Associate(n, x, t); }
  }

  // ----- the error of the result, for the input as it was given

  /** One minus (input / 2p) * (result / 2p) * 2^shift, the quantity that an exact reciprocal makes zero. */
  ghost function Error(input: int, result: int, shift: nat, p: int): real
    requires p > 0
  {
    1.0 - (input as real / (2 * p) as real) * (result as real / (2 * p) as real) * Pow2(shift) as real
  }

  /** e is one minus input times estimate. */
  ghost predicate ErrorOf(e: real, n: int, x: int, p: int)
    requires p > 0
  {
    e * (2 * p * p) as real == Residual(n, x, p) as real
  }

  /** Shifting the input left and halving the exponent's weight leaves the error unchanged. */
  lemma ErrorIsResidual(input: int, result: int, shift: nat, p: int)
    requires p > 0 && shift > 0
    ensures ErrorOf(Error(input, result, shift, p), input * Pow2(shift - 1), result, p)
  {
    var a, b, c, d := input as real, result as real, Pow2(shift - 1) as real, p as real;
    assert Pow2(shift) as real == 2.0 * c;
    assert (input * Pow2(shift - 1) * result) as real == a * c * b;
    assert (2 * p) as real == 2.0 * d && (2 * p * p) as real == 2.0 * d * d;
    assert (a / (2.0 * d)) * (b / (2.0 * d)) * (2.0 * c) * (2.0 * d * d) == a * b * c;
  }

  lemma RealMono(a: real, b: real, k: real)
    requires a <= b && 0.0 <= k
    ensures a * k <= b * k
  {
  }

  lemma ScaleDown(e: real, f: real, c: real, d: real)
    requires d > 0.0 && f * d * d < e * e * d * d + c * d * d
    ensures f < e * e + c
  {
    assert (e * e + c) * (d * d) == e * e * d * d + c * d * d;
    if f >= e * e + c {
      RealMono(e * e + c, f, d * d);
    }
  }

  lemma RealStrict(a: real, b: real, k: real)
    requires a < b && 0.0 < k
    ensures a * k < b * k
  {
  }

  /** One scaled turn, read as a bound on the errors: with e = x / d the bound x' * d < x * x + c * d * d. */
  lemma ErrorTurn(e: real, f: real, x: int, y: int, d: int, lost: int, c: real)
    requires d > 0 && e * d as real == x as real && f * d as real == y as real
    requires y * d < x * x + lost && lost as real == c * d as real * d as real
    ensures f < e * e + c
  {
    var r := d as real;
    assert (y * d) as real == f * r * r by { assert (y * d) as real == y as real * r; }
    assert (x * x) as real == e * e * r * r by { assert (x * x) as real == x as real * x as real; }
    ScaleDown(e, f, c, r);
  }

  lemma LostReal(p: int, k: int)
    requires p > 0
    ensures (4 * k * p * p * p) as real == (k as real / p as real) * (2 * p * p) as real * (2 * p * p) as real
  {
    var q, j := p as real, k as real;
    assert (2 * p * p) as real == 2.0 * q * q;
    assert (4 * k * p * p * p) as real == 4.0 * j * q * q * q;
    assert (j / q) * q == j;
    assert (j / q) * (2.0 * q * q) * (2.0 * q * q) == 4.0 * ((j / q) * q) * q * q * q;
  }

  lemma SquareMono(a: real, b: real)
    requires 0.0 <= a <= b
    ensures a * a <= b * b
  {
  }

  lemma FirstLoss(n: int, x: int, p: int)
    requires 0 < p <= n < 2 * p && 0 <= x < 2 * p
    ensures 2 * p * (n * x) + 4 * p * p * p <= 4 * 3 * p * p * p
  {
    ProductBelow(n, x, 2 * p);
    MulMono(n * x, 4 * p * p, 2 * p);
  }

  lemma SecondLoss(y: int, p: int)
    requires 0 < p && y <= 2 * p * p
    ensures 2 * p * y + 4 * p * p * p <= 4 * 2 * p * p * p
  {
    MulMono(y, 2 * p * p, 2 * p);
  }

  lemma SignOf(e: real, d: int, x: int)
    requires d > 0 && x >= 0 && e * d as real == x as real
    ensures e >= 0.0
  {
  }

  lemma TurnLosing(e: real, f: real, r: int, r': int, d: int, lost: int, p: int, k: nat)
    requires p > 0 && d == 2 * p * p && e * d as real == r as real && f * d as real == r' as real
    requires r' * d < r * r + lost && lost <= 4 * k * p * p * p
    ensures f < e * e + k as real / p as real
  {
    NonNegative(p, p);
    LostReal(p, k);
    ErrorTurn(e, f, r, r', d, 4 * k * p * p * p, k as real / p as real);
  }

  lemma OneTurnFrom(e: real, f: real, r: int, r': int, lost: int, p: int)
    requires p > 0 && e * (2 * p * p) as real == r as real && f * (2 * p * p) as real == r' as real
    requires 0 <= r' && r' * (2 * p * p) < r * r + lost
    requires lost <= 4 * 3 * p * p * p && (0 <= r ==> lost <= 4 * 2 * p * p * p)
    ensures 0.0 <= f < e * e + 3.0 / p as real
    ensures 0 <= r ==> f < e * e + 2.0 / p as real
  {
    NonNegative(p, p);
    SignOf(f, 2 * p * p, r');
    TurnLosing(e, f, r, r', 2 * p * p, lost, p, 3);
    if 0 <= r {
      TurnLosing(e, f, r, r', 2 * p * p, lost, p, 2);
    }
  }

  /** One turn, with e and f the errors before and after: the error is squared, plus a truncation loss that is
      smaller when the old estimate was not too large. */
  lemma OneTurn(n: int, x: int, y: int, p: int, e: real, f: real)
    requires 0 < p <= n < 2 * p && 0 <= x < 2 * p && y == Newton(n, x, p)
    requires ErrorOf(e, n, x, p) && ErrorOf(f, n, y, p)
    ensures 0.0 <= f < e * e + 3.0 / p as real
    ensures 0 <= Residual(n, x, p) ==> f < e * e + 2.0 / p as real
  {
    NewtonStep(n, x, p);
    FirstLoss(n, x, p);
    if 0 <= Residual(n, x, p) {
      SecondLoss(n * x, p);
    }
    OneTurnFrom(e, f, Residual(n, x, p), Residual(n, y, p), 2 * p * (n * x) + 4 * p * p * p, p);
  }

  ghost function Once(e: real, p: int): real
    requires p > 0
  {
    e * e + 3.0 / p as real
  }

  /** The error that two turns leave at most, from a seed with error e. */
  ghost function Bound(e: real, p: int): real
    requires p > 0
  {
    Once(e, p) * Once(e, p) + 2.0 / p as real
  }

  /** Two turns, with e and g the errors before and after. */
  lemma TwoTurnsFrom(n: int, x: int, y: int, z: int, p: int, e: real, g: real)
    requires 0 < p <= n < 2 * p && 0 <= x < 2 * p && y == Newton(n, x, p) && z == Newton(n, y, p)
    requires ErrorOf(e, n, x, p) && ErrorOf(g, n, z, p)
    ensures 0.0 <= g < Bound(e, p)
  {
    var f := Residual(n, y, p) as real / (2 * p * p) as real;
    NewtonStep(n, x, p);
    OneTurn(n, x, y, p, e, f);
    OneTurn(n, y, z, p, f, g);
    SquareMono(f, Once(e, p));
  }

  /** One minus input times estimate, as a real number. */
  ghost function RealError(n: int, x: int, p: int): real
    requires p > 0
  {
    NonNegative(p, p);
    Residual(n, x, p) as real / (2 * p * p) as real
  }

  lemma RealErrorOf(n: int, x: int, p: int)
    requires p > 0
    ensures ErrorOf(RealError(n, x, p), n, x, p)
  {
    NonNegative(p, p);
  }

  /** Two turns from any seed: the result never overestimates, and its error is the fourth power of the
      seed's up to truncation. */
  lemma TwoTurns(n: int, x: int, p: int)
    requires 0 < p <= n < 2 * p && 0 <= x < 2 * p
    ensures 0.0 <= RealError(n, Newton(n, Newton(n, x, p), p), p) < Bound(RealError(n, x, p), p)
  {
    var y := Newton(n, x, p);
    RealErrorOf(n, x, p);
    RealErrorOf(n, Newton(n, y, p), p);
    TwoTurnsFrom(n, x, y, Newton(n, y, p), p, RealError(n, x, p), RealError(n, Newton(n, y, p), p));
  }

  // ----- the functions themselves

  const P31 := 0x4000_0000
  const P15 := 0x4000

  lemma NoWideProduct(x: Q31, t: int)
    requires 0 <= x && 0 <= t < TWO32
    ensures 0 <= x * t < TWO63
  {
    NonNegative(x, t);
    MulBound(x, t, TWO31 - 1, TWO32 - 1);
  }

  /** One turn of the loop of arm_recip_q31, casts and clip included. */
  function TurnQ31(n: Q31, x: Q31): (y: Q31)
    requires x >= 0
    ensures y >= 0
  {
    var temp: int := U32(0x7FFF_FFFF - U32(n * x / TWO31));
    NoWideProduct(x, temp);
    ClipQ63Saturates(x * temp / TWO30);
    ClipQ63ToQ31(x * temp / TWO30)
  }

  lemma InRange31(n: Q31, x: Q31)
    requires P31 <= n && 0 <= x
    ensures 0 <= n * x / TWO31 < TWO31
  {
    ProductBelow(n, x, TWO31);
  }

  /** For a positive input no cast and no clip of a turn ever changes its argument. */
  lemma TurnWithoutClip(n: Q31, x: Q31)
    requires P31 <= n && 0 <= x
    ensures TurnQ31(n, x) == Newton(n, x, P31) == x * U32(0x7FFF_FFFF - U32(n * x / TWO31)) / TWO30
  {
    InRange31(n, x);
    assert U32(0x7FFF_FFFF - U32(n * x / TWO31)) == Correction(n, x, P31);
    NewtonStep(n, x, P31);
    ClipQ63Saturates(Newton(n, x, P31));
  }

  lemma NegativeQuotient(n: Q31, x: Q31)
    requires n < 0 && 0 < x
    ensures -TWO31 <= n * x / TWO31 <= -1
  {
    MulMono(-TWO31, n, x);
    MulMono(n, -1, x);
  }

  /** For a negative input the correction exceeds two, so a turn only moves the estimate further up, and saturates. */
  lemma TurnOnNegative(n: Q31, x: Q31)
    requires n <= -P31 && 0 < x
    ensures TurnQ31(n, x) == Saturate(x * (0x7FFF_FFFF - n * x / TWO31) / TWO30, TWO31)
    ensures TurnQ31(n, x) >= x
  {
    var v := n * x / TWO31;
    NegativeQuotient(n, x);
    var t := 0x7FFF_FFFF - v;
    assert U32(v) == v + TWO32 && U32(0x7FFF_FFFF - U32(v)) == t;
    NoWideProduct(x, t);
    MulMono(TWO31, t, x);
    ClipQ63Saturates(x * t / TWO30);
  }

  lemma NegateProduct(a: int, b: int)
    ensures -a * b == -(a * b)
  {
  }

  lemma Normalised(input: Q31)
    requires input != 0 && input != -TWO31
    ensures var k := Clz(if input > 0 then input else -input);
            k > 0 && (if input > 0 then P31 <= input * Pow2(k - 1) < TWO31
                      else -TWO31 < input * Pow2(k - 1) <= -P31)
  {
    var a := if input > 0 then input else -input;
    var k := Clz(a);
    assert k > 0;
    ShiftOnce(a, k);
    if input < 0 {
      NegateProduct(a, Pow2(k - 1));
    }
  }

  lemma TwoTurnsOn(n: Q31, x: Q31)
    requires x > 0 && (P31 <= n || n <= -P31)
    ensures n > 0 ==> TurnQ31(n, TurnQ31(n, x)) == Newton(n, Newton(n, x, P31), P31)
    ensures n < 0 ==> TurnQ31(n, TurnQ31(n, x)) >= x
  {
    if n > 0 {
      TurnWithoutClip(n, x);
      TurnWithoutClip(n, TurnQ31(n, x));
    } else {
      TurnOnNegative(n, x);
      TurnOnNegative(n, TurnQ31(n, x));
    }
  }

  /** What ArmRecipQ31 promises about its result. */
  ghost predicate RecipResult(input: Q31, shift: nat, seed: Q31, dst: Q31)
  {
    && input != 0 && shift > 0 && seed > 0
    && var n := input * Pow2(shift - 1);
    && (if input > 0 then P31 <= n < TWO31 else -TWO31 < n <= -P31)
    && dst == TurnQ31(n, TurnQ31(n, seed))
    && (if input > 0 then dst == Newton(n, Newton(n, seed, P31), P31) else dst >= seed)
  }

  /** arm_recip_q31, for any input but zero and the most negative value, whose negation overflows. */
  method ArmRecipQ31(input: Q31, table: seq<Q31>) returns (shift: nat, dst: Q31)
    requires input != 0 && input != -TWO31
    requires |table| == 64 && forall i :: 0 <= i < 64 ==> table[i] > 0
    ensures shift > 0
    ensures RecipResult(input, shift, table[input * Pow2(shift - 1) / 0x100_0000 % 64], dst)
  {
    var signBits := Clz(if input > 0 then input else -input) - 1;
    Normalised(input);
    var n: Q31 := input * Pow2(signBits);
    var index := n / 0x100_0000 % 64;
    var out: Q31 := table[index];
    ghost var seed: Q31 := out;
    ghost var x1: Q31 := TurnQ31(n, seed);
    ghost var x2: Q31 := TurnQ31(n, x1);
    TwoTurnsOn(n, seed);
    var i := 0;
    while i < 2
      invariant 0 <= i <= 2 && out >= 0
      invariant out == if i == 0 then seed else if i == 1 then x1 else x2
    {
      NoWideProduct(out, U32(0x7FFF_FFFF - U32(n * out / TWO31)));
      var temp: int := U32(n * out / TWO31);
      temp := U32(0x7FFF_FFFF - temp);
      out := ClipQ63ToQ31(out * temp / TWO30);
      i := i + 1;
    }
    dst := out;
    shift := signBits + 1;
  }

  lemma AtMostOne(e: real, d: int, x: int)
    requires d > 0 && e * d as real == x as real
    ensures e <= 1.0 <==> x <= d
  {
    var r := d as real;
    if e <= 1.0 {
      RealMono(e, 1.0, r);
    }
    if e > 1.0 {
      RealStrict(1.0, e, r);
    }
  }

  lemma PositiveError(input: int, shift: nat, seed: int, p: int)
    requires shift > 0 && 0 < p <= input * Pow2(shift - 1) < 2 * p && 0 <= seed < 2 * p
    ensures var n := input * Pow2(shift - 1);
            Error(input, Newton(n, Newton(n, seed, p), p), shift, p) <= 1.0
  {
    var n := input * Pow2(shift - 1);
    var x1 := Newton(n, seed, p);
    var x2 := Newton(n, x1, p);
    NewtonStep(n, seed, p);
    NewtonStep(n, x1, p);
    NonNegative(n, x2);
    ErrorIsResidual(input, x2, shift, p);
    AtMostOne(Error(input, x2, shift, p), 2 * p * p, Residual(n, x2, p));
  }

  lemma NegativeError(input: int, shift: nat, dst: int, p: int)
    requires shift > 0 && p > 0 && input < 0 && dst > 0
    ensures Error(input, dst, shift, p) > 1.0
  {
    var n := input * Pow2(shift - 1);
    ErrorIsResidual(input, dst, shift, p);
    MulMono(input, -1, Pow2(shift - 1));
    MulMono(n, -1, dst);
    AtMostOne(Error(input, dst, shift, p), 2 * p * p, Residual(n, dst, p));
  }

  /** arm_recip_q31 is a reciprocal on exactly the positive inputs: there its error is within the bound of two
      Newton turns, never negative and at most one; on every negative input it has the wrong sign, which is worse
      than returning zero. The table may hold any positive seeds. */
  lemma RecipQ31Exactly(input: Q31, shift: nat, seed: Q31, dst: Q31)
    requires RecipResult(input, shift, seed, dst)
    ensures 0.0 <= Error(input, dst, shift, P31) <= 1.0 <==> input > 0
    ensures input > 0 ==> Error(input, dst, shift, P31) < Bound(Error(input, seed, shift, P31), P31)
  {
    if input > 0 {
      var n := input * Pow2(shift - 1);
      ErrorIsResidual(input, seed, shift, P31);
      ErrorIsResidual(input, dst, shift, P31);
      var e, g := Error(input, seed, shift, P31), Error(input, dst, shift, P31);
      TwoTurnsFrom(n, seed, Newton(n, seed, P31), dst, P31, e, g);
      PositiveError(input, shift, seed, P31);
    } else {
      NegativeError(input, shift, dst, P31);
    }
  }

  /** One turn of the loop of arm_recip_q15: a 16-bit product and casts, and no clip. */
  function TurnQ15(n: Q15, x: Q15): Q15 {
    Wrap16(U32(x * U32(0x7FFF - U32(Wrap32(n * x) / TWO15))) / 0x4000)
  }

  /** n has the sign of the input and no room for a further shift. */
  predicate Normal15(input: Q15, n: int) {
    if input > 0 then P15 <= n < TWO15 else -TWO15 < n <= -P15
  }

  lemma NormalisedQ15(input: Q15)
    requires input != 0 && input != -TWO15
    ensures var k := Clz(if input > 0 then input else -input);
            k >= 17 && Normal15(input, input * Pow2(k - 17))
            && (input > 0 ==> var i := input * Pow2(k - 17) / 0x100; 0 <= i - 64 < 64 && i % 64 == i - 64)
  {
    var a := if input > 0 then input else -input;
    var k := Clz(a);
    Pow2Values();
    assert k >= 17 by {
      if k < 17 {
        Pow2Mono(k, 16);
        MulBound(a, Pow2(k), TWO15 - 1, 0x1_0000);
      }
    }
    Pow2Sum(k - 17, 17);
    Associate(a, Pow2(k - 17), Pow2(17));
    if input < 0 {
      NegateProduct(a, Pow2(k - 17));
    }
  }

  /** For a positive input the unclipped cast of a turn never wraps. */
  lemma ExactTurnQ15(n: Q15, x: Q15)
    requires P15 <= n && 0 <= x
    ensures TurnQ15(n, x) == Newton(n, x, P15)
    ensures 0 <= Newton(n, x, P15) < TWO15
  {
    ProductBelow(n, x, TWO15);
    assert Wrap32(n * x) == n * x;
    CorrectionBounds(n, x, P15);
    var t := Correction(n, x, P15);
    assert U32(0x7FFF - U32(Wrap32(n * x) / TWO15)) == t;
    ProductBelow(x, t, TWO15);
    assert U32(x * t) == x * t;
    NewtonStep(n, x, P15);
  }

  /** The middle values of a turn: the correction, which is never negative. */
  lemma CorrectionQ15(n: Q15, x: Q15)
    requires n > -TWO15
    ensures Wrap32(n * x) == n * x && -TWO15 <= n * x / TWO15 < TWO15
    ensures 0 <= 0x7FFF - n * x / TWO15 < TWO16
    ensures U32(0x7FFF - U32(Wrap32(n * x) / TWO15)) == 0x7FFF - n * x / TWO15
  {
    MulBound(n, x, TWO15 - 1, TWO15);
    assert (TWO15 - 1) * TWO15 == 0x3FFF_8000;
  }

  lemma HighBitsDrop(y: int)
    requires -TWO31 <= y <= TWO31
    ensures Wrap16(U32(y) / 0x4000) == Wrap16(y / 0x4000)
  {
    if y < 0 {
      assert U32(y) == y + TWO32;
      assert (y + TWO32) / 0x4000 == y / 0x4000 + 4 * TWO16;
    }
  }

  /** On any input, of either sign, a turn is the exact one, cut to sixteen bits. */
  lemma TurnQ15Means(n: Q15, x: Q15)
    requires n > -TWO15
    ensures TurnQ15(n, x) == Wrap16(x * (0x7FFF - n * x / TWO15) / 0x4000)
  {
    CorrectionQ15(n, x);
    var t := 0x7FFF - n * x / TWO15;
    MulBound(x, t, TWO15, TWO16);
    HighBitsDrop(x * t);
  }

  lemma ExactTurns(n: Q15, x: Q15)
    requires P15 <= n && 0 <= x
    ensures TurnQ15(n, TurnQ15(n, x)) == Newton(n, Newton(n, x, P15), P15)
  {
    ExactTurnQ15(n, x);
    ExactTurnQ15(n, TurnQ15(n, x));
  }

  /** The body of that loop. */
  method RunTurnQ15(n: Q15, x: Q15) returns (out: Q15)
    ensures out == TurnQ15(n, x)
  {
    var temp: int := U32(Wrap32(n * x) / TWO15);
    temp := U32(0x7FFF - temp);
    out := Wrap16(U32(x * temp) / 0x4000);
  }

  /** arm_recip_q15, for any input but zero and the most negative value. On positive inputs the two turns are exact. */
  method ArmRecipQ15(input: Q15, table: seq<Q15>) returns (shift: nat, dst: Q15)
    requires input != 0 && input != -TWO15
    requires |table| == 64 && forall i :: 0 <= i < 64 ==> table[i] > 0
    ensures shift > 0 && Normal15(input, input * Pow2(shift - 1))
    ensures var n := input * Pow2(shift - 1);
            var seed := table[n / 0x100 % 64];
            && dst == TurnQ15(n, TurnQ15(n, seed))
            && (input > 0 ==> n / 0x100 % 64 == n / 0x100 - 64 && dst == Newton(n, Newton(n, seed, P15), P15))
  {
    var signBits := Clz(if input > 0 then input else -input) - 17;
    NormalisedQ15(input);
    var n: Q15 := input * Pow2(signBits);
    var index := n / 0x100 % 64;
    var out: Q15 := table[index];
    if input > 0 {
      ExactTurns(n, out);
    }
    ghost var seed: Q15 := out;
    ghost var x1 := TurnQ15(n, seed);
    ghost var x2 := TurnQ15(n, x1);
    var i := 0;
    while i < 2
      invariant 0 <= i <= 2
      invariant out == if i == 0 then seed else if i == 1 then x1 else x2
    {
      out := RunTurnQ15(n, out);
      i := i + 1;
    }
    dst := out;
    shift := signBits + 1;
  }

  /** The same bound for the result of arm_recip_q15. */
  lemma RecipQ15Bound(input: Q15, shift: nat, seed: Q15, dst: Q15)
    requires shift > 0 && P15 <= input * Pow2(shift - 1) < TWO15 && seed > 0
    requires var n := input * Pow2(shift - 1); dst == Newton(n, Newton(n, seed, P15), P15)
    ensures 0.0 <= Error(input, dst, shift, P15) < Bound(Error(input, seed, shift, P15), P15)
  {
    var n := input * Pow2(shift - 1);
    ErrorIsResidual(input, seed, shift, P15);
    ErrorIsResidual(input, dst, shift, P15);
    var e, g := Error(input, seed, shift, P15), Error(input, dst, shift, P15);
    TwoTurnsFrom(n, seed, Newton(n, seed, P15), dst, P15, e, g);
  }
}
