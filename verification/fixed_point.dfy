/** Two's-complement integers of the sizes the fixed-point code uses, and its saturating helpers. A right shift
    of a signed value is arithmetic, so it is the flooring division by a power of two. */
module FixedPoint {
  import Arithmetic

  const TWO15 := 0x8000
  const TWO16 := 0x1_0000
  const TWO30 := 0x4000_0000
  const TWO31 := 0x8000_0000
  const TWO32 := 0x1_0000_0000
  const TWO63 := 0x8000_0000_0000_0000
  const TWO64 := 0x1_0000_0000_0000_0000

  type Q15 = x: int | -TWO15 <= x < TWO15
  type Q31 = x: int | -TWO31 <= x < TWO31
  type Q63 = x: int | -TWO63 <= x < TWO63

  /** The cast to a 32-bit signed integer. */
  function Wrap32(x: int): Q31 {
    (x + TWO31) % TWO32 - TWO31
  }

  function Wrap16(x: int): Q15 {
    (x + TWO15) % TWO16 - TWO15
  }

  /** The cast to a 32-bit unsigned integer. */
  function U32(x: int): nat {
    x % TWO32
  }

  function Wrap64(x: int): Q63 {
    (x + TWO63) % TWO64 - TWO63
  }

  predicate Fits(x: int, limit: int) {
    -limit <= x < limit
  }

  /** The casts change a value by a multiple of their width and bring it into range. */
  lemma WrapsMean(x: int)
    ensures Fits(Wrap16(x), 0x8000) && Wrap16(x) == x - 0x1_0000 * ((x + 0x8000) / 0x1_0000)
    ensures Fits(Wrap32(x), 0x8000_0000) && Wrap32(x) == x - 0x1_0000_0000 * ((x + 0x8000_0000) / 0x1_0000_0000)
    ensures Fits(Wrap64(x), 0x8000_0000_0000_0000)
            && Wrap64(x) == x - 0x1_0000_0000_0000_0000 * ((x + 0x8000_0000_0000_0000) / 0x1_0000_0000_0000_0000)
    ensures 0 <= U32(x) < 0x1_0000_0000 && U32(x) == x - 0x1_0000_0000 * (x / 0x1_0000_0000)
  {
  }

  /** The nearest value in [-limit, limit). */
  function Saturate(x: int, limit: int): int {
    if x >= limit then limit - 1 else if x < -limit then -limit else x
  }

  /** k ^ s for a mask k of ones and s = 0 or -1. */
  function XorSign(k: int, x: int): int {
    if x < 0 then -k - 1 else k
  }

  function ClipQ63ToQ31(x: Q63): int {
    if Wrap32(x / TWO32) != Wrap32(x) / TWO31 then XorSign(TWO31 - 1, x) else Wrap32(x)
  }

  function ClipQ63ToQ15(x: Q63): int {
    if Wrap32(x / TWO32) != Wrap32(x) / TWO31 then XorSign(TWO15 - 1, x) else Wrap16(x / TWO15)
  }

  function QAdd(x: Q31, y: Q31): int {
    ClipQ63ToQ31(x + y)
  }

  function QSub(x: Q31, y: Q31): int {
    ClipQ63ToQ31(x - y)
  }

  /** The comparison of the high half with the sign of the low half tells exactly whether the value fits. */
  lemma ClipQ63Saturates(x: Q63)
    ensures ClipQ63ToQ31(x) == Saturate(x, TWO31)
  {
    var h, l := x / TWO32, x % TWO32;
    assert x == TWO32 * h + l;
    assert -TWO31 <= h < TWO31 && Wrap32(h) == h;
    assert Wrap32(x) == if l < TWO31 then l else l - TWO32;
    assert Wrap32(x) / TWO31 == if l < TWO31 then 0 else -1;
  }

  lemma NarrowWrap(v: int)
    requires Fits(v, TWO16)
    ensures Wrap16(v) == if v >= TWO15 then v - TWO16 else if v < -TWO15 then v + TWO16 else v
  {
  }

  /** Clipping to Q15 tests for 32 bits where the shifted value needs 31, so it wraps on half of the range. */
  lemma ClipQ63ToQ15Exactly(x: Q63)
    ensures ClipQ63ToQ15(x) == Saturate(x / TWO15, TWO15) <==> !(TWO30 <= x < TWO31 || -TWO31 <= x < -TWO30)
    ensures TWO30 <= x < TWO31 ==> ClipQ63ToQ15(x) == x / TWO15 - TWO16
    ensures -TWO31 <= x < -TWO30 ==> ClipQ63ToQ15(x) == x / TWO15 + TWO16
  {
    var h, l := x / TWO32, x % TWO32;
    assert x == TWO32 * h + l;
    assert Wrap32(h) == h;
    assert Wrap32(x) / TWO31 == if l < TWO31 then 0 else -1;
    assert h == Wrap32(x) / TWO31 <==> Fits(x, TWO31);
    if Fits(x, TWO31) {
      NarrowWrap(x / TWO15);
    }
  }

  function Mult32x64(x: Q63, y: Q31): int {
    x % TWO32 * y / TWO32 + x / TWO32 * y
  }

  /** The two partial products make the exact floor of x * y / 2^32, and no step leaves 64 bits. */
  lemma Mult32x64IsExact(x: Q63, y: Q31)
    ensures Mult32x64(x, y) == x * y / TWO32
    ensures -TWO63 <= x % TWO32 * y < TWO63 && -TWO63 <= x / TWO32 * y < TWO63
    ensures -TWO63 <= Mult32x64(x, y) < TWO63
  {
    var h, l := x / TWO32, x % TWO32;
    assert x * y == TWO32 * (h * y) + l * y by {
      assert x == TWO32 * h + l;
    }
    Arithmetic.MulBound(l, y, TWO32, TWO31);
    Arithmetic.MulBound(h, y, TWO31, TWO31);
  }
}
