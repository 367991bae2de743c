/** The Clarke transform pair in Q31. */
module Clarke {
  import opened FixedPoint

  /** One over the square root of three, in 2.30 format. */
  const C := 0x24F3_4E8B

  function Product1(ia: Q31): int {
    ia * 0x24F3_4E8B / TWO30
  }

  function Product2(ib: Q31): int {
    ib * 0x49E6_9D16 / TWO30
  }

  /** arm_clarke_q31, the casts of the products included. */
  function Forward(ia: Q31, ib: Q31): (Q31, Q31) {
    ClipQ63Saturates(Wrap32(Product1(ia)) + Wrap32(Product2(ib)));
    (ia, QAdd(Wrap32(Product1(ia)), Wrap32(Product2(ib))))
  }

  /** arm_inv_clarke_q31 */
  function Inverse(alpha: Q31, beta: Q31): (Q31, Q31) {
    var product1 := Wrap32(alpha * 0x4000_0000 / TWO31);
    var product2 := Wrap32(beta * 0x6ED9_EBA1 / TWO31);
    ClipQ63Saturates(product2 - product1);
    (alpha, QSub(product2, product1))
  }

  lemma ProductRanges(ia: Q31, ib: Q31)
    ensures -1239850263 <= Product1(ia) < 1239850263
    ensures -2479700525 <= Product2(ib) < 2479700525
  {
  }

  /** What the cast makes of a product that is out of range by less than 2^32. */
  function Turned(p: int): int {
    if p >= TWO31 then p - TWO32 else if p < -TWO31 then p + TWO32 else p
  }

  lemma CastAndAdd(p1: int, p2: int)
    requires -1239850263 <= p1 < 1239850263 && -2479700525 <= p2 < 2479700525
    ensures QAdd(Wrap32(p1), Wrap32(p2)) == Saturate(p1 + p2, TWO31) <==> Fits(p2, TWO31)
    ensures QAdd(Wrap32(p1), Wrap32(p2)) == Saturate(p1 + Turned(p2), TWO31)
  {
    ClipQ63Saturates(Wrap32(p1) + Wrap32(p2));
    assert Wrap32(p1) == p1;
    assert Wrap32(p2) == if p2 >= TWO31 then p2 - TWO32 else if p2 < -TWO31 then p2 + TWO32 else p2;
  }

  /** The forward transform saturates as documented exactly when its second product needs no wrapping cast. */
  lemma ForwardSaturatesExactly(ia: Q31, ib: Q31)
    ensures Forward(ia, ib).1 == Saturate(Product1(ia) + Product2(ib), TWO31) <==> Fits(Product2(ib), TWO31)
    ensures Forward(ia, ib) == (ia, Saturate(Product1(ia) + Turned(Product2(ib)), TWO31))
  {
    ProductRanges(ia, ib);
    CastAndAdd(Product1(ia), Product2(ib));
  }

  /** The cast harms the inputs Ib beyond about 0.866 of full scale. */
  lemma SecondProductFits(ib: Q31)
    ensures Fits(Product2(ib), TWO31) <==> -1859775393 <= ib <= 1859775393
  {
  }

  lemma InverseProducts(alpha: Q31, beta: Q31)
    ensures Wrap32(alpha * 0x4000_0000 / TWO31) == alpha / 2
    ensures Wrap32(beta * 0x6ED9_EBA1 / TWO31) == beta * (3 * C) / TWO31
  {
    assert alpha * 0x4000_0000 / TWO31 == alpha / 2;
  }

  /** The inverse transform never wraps: its value is the saturated difference of the two exact products. */
  lemma InverseSaturates(alpha: Q31, beta: Q31)
    ensures Inverse(alpha, beta) == (alpha, Saturate(beta * (3 * C) / TWO31 - alpha / 2, TWO31))
  {
    InverseProducts(alpha, beta);
    ClipQ63Saturates(beta * (3 * C) / TWO31 - alpha / 2);
  }

  lemma ForwardFits(ia: Q31, ib: Q31, beta: Q31)
    requires Fits(Product2(ib), TWO31) && beta == Product1(ia) + Product2(ib)
    ensures Forward(ia, ib) == (ia, beta)
  {
    ProductRanges(ia, ib);
    CastAndAdd(Product1(ia), Product2(ib));
  }

  lemma Truncations(ia: Q31, ib: Q31, beta: Q31)
    requires beta == Product1(ia) + Product2(ib)
    ensures Fits(Product1(ia), TWO31)
    ensures 0 <= C * (ia + 2 * ib) - TWO30 * beta < 2 * TWO30
    ensures 0 <= beta * (3 * C) - TWO31 * (beta * (3 * C) / TWO31) < TWO31
    ensures 0 <= ia - 2 * (ia / 2) <= 1
  {
  }

  lemma BackAndForth(ia: Q31, ib: Q31, beta: Q31, q2: int, q1: int)
    requires 0 <= C * (ia + 2 * ib) - TWO30 * beta < 2 * TWO30
    requires 0 <= beta * (3 * C) - TWO31 * q2 < TWO31
    requires 0 <= ia - 2 * q1 <= 1
    ensures -3 <= q2 - q1 - ib <= 1
  {
    var s := ia + 2 * ib;
    assert -3719550791 <= s <= 3719550791;
    var r, r3, h := C * s - TWO30 * beta, beta * (3 * C) - TWO31 * q2, ia - 2 * q1;
    assert TWO30 * TWO31 * (q2 - q1 - ib) == -470745493 * s - 3 * C * r - TWO30 * r3 + TWO30 * TWO30 * h;
  }

  lemma BackFromBeta(ia: Q31, ib: Q31, beta: Q31)
    requires beta == Product1(ia) + Product2(ib)
    ensures ib - 3 <= Inverse(ia, beta).1 <= ib + 1
  {
    InverseSaturates(ia, beta);
    Truncations(ia, ib, beta);
    BackAndForth(ia, ib, beta, beta * (3 * C) / TWO31, ia / 2);
  }

  /** Going there and back returns Ia exactly and Ib up to -3 .. +1 units in the last place, whenever the
      forward transform neither wraps nor saturates. It rests on 3 * C * C being just below 2^60. */
  lemma RoundTrip(ia: Q31, ib: Q31)
    requires Fits(Product2(ib), TWO31) && Fits(Product1(ia) + Product2(ib), TWO31)
    ensures var (alpha, beta) := Forward(ia, ib);
            var (a, b) := Inverse(alpha, beta);
            a == ia && ib - 3 <= b <= ib + 1
  {
    var beta: Q31 := Product1(ia) + Product2(ib);
    ForwardFits(ia, ib, beta);
    BackFromBeta(ia, ib, beta);
  }
}
