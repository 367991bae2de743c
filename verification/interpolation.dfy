/** Linear interpolation in a Q31 table, with the sample in 12.20 format. */
module Interpolation {
  import Arithmetic
  import opened FixedPoint

  const FRACTION := 0x10_0000

  /** The index part of the sample, which is signed and so never exceeds 2047. */
  function Index(x: Q31): int {
    x / FRACTION
  }

  /** The fraction part, in 1.31 format. */
  function Fract(x: Q31): int {
    x % FRACTION * 0x800
  }

  /** y0 * (1 - fract) + y1 * fract in 2.30 format, as the code adds it up. */
  function Half(y0: Q31, y1: Q31, fract: int): int {
    y0 * (0x7FFF_FFFF - fract) / TWO32 + y1 * fract / TWO32
  }

  /** The result lies strictly above the exact interpolant minus 5 and at most 1 above it. */
  ghost predicate Between(y: int, y0: Q31, y1: Q31, fract: int) {
    var exact := y0 * (TWO31 - fract) + y1 * fract;
    exact - 5 * TWO31 < y * TWO31 <= exact + TWO31
  }

  lemma MulRange(y: Q31, m: int)
    requires 0 <= m < TWO31
    ensures -TWO31 * m <= y * m <= (TWO31 - 1) * m
  {
    Arithmetic.NonNegative(y + TWO31, m);
    Arithmetic.NonNegative(TWO31 - 1 - y, m);
    assert (y + TWO31) * m == y * m + TWO31 * m && (TWO31 - 1 - y) * m == (TWO31 - 1) * m - y * m;
  }

  /** The interpolation error, and the reason why the final doubling cannot overflow. */
  lemma HalfBounds(y0: Q31, y1: Q31, fract: int)
    requires 0 <= fract <= TWO31 - 0x800 && fract % 0x800 == 0
    ensures -TWO30 <= Half(y0, y1, fract) < TWO30
    ensures Fits(y0 * (0x7FFF_FFFF - fract) / TWO32, TWO30) && Fits(y1 * fract / TWO32, TWO30)
    ensures Between(2 * Half(y0, y1, fract), y0, y1, fract)
  {
    var m := 0x7FFF_FFFF - fract;
    MulRange(y0, m);
    MulRange(y1, fract);
    assert y0 * (TWO31 - fract) == y0 * m + y0;
  }

  /** Index and fraction make up the sample, which has twenty bits behind the point. */
  lemma SampleMeans(x: Q31)
    ensures x * 0x800 == Index(x) * 0x8000_0000 + Fract(x) && 0 <= Fract(x) < 0x8000_0000
  {
  }

  /** arm_linear_interp_q31 */
  method LinearInterp(table: seq<Q31>, x: Q31) returns (y: Q31)
    requires 1 <= |table| <= TWO31
    ensures x * 0x800 == Index(x) * 0x8000_0000 + Fract(x) && 0 <= Fract(x) < 0x8000_0000
    ensures Index(x) >= |table| - 1 ==> y == table[|table| - 1]
    ensures Index(x) < 0 ==> y == table[0]
    ensures 0 <= Index(x) < |table| - 1 ==> Between(y, table[Index(x)], table[Index(x) + 1], Fract(x))
  {
    SampleMeans(x);
    var index := x / FRACTION;
    if index >= |table| - 1 {
      return table[|table| - 1];
    } else if index < 0 {
      return table[0];
    }
    var fract := x % FRACTION * 0x800;
    var y0, y1 := table[index], table[index + 1];
    HalfBounds(y0, y1, fract);
    var half: Q31 := y0 * (0x7FFF_FFFF - fract) / TWO32;
    half := half + y1 * fract / TWO32;
    y := half * 2;
  }
}
