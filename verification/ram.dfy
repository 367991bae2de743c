/** Byte-addressed memory with little-endian 32-bit words, as the Cortex-M4 sees it. */
module Ram {
  import FixedPoint

  type Byte = x: int | 0 <= x < 256
  type Word = x: int | 0 <= x < FixedPoint.TWO32

  /** (x + 3) & ~3 in 32-bit arithmetic. */
  function RoundUp4(x: Word): Word {
    (x + 3) % FixedPoint.TWO32 / 4 * 4
  }

  /** x & ~3 */
  function RoundDown4(x: Word): Word {
    x / 4 * 4
  }

  /** Rounding gives the nearest multiple of four on its side; rounding up wraps to zero behind the last one. */
  lemma RoundingMeans(x: Word)
    ensures RoundDown4(x) % 4 == 0 && RoundDown4(x) <= x < RoundDown4(x) + 4
    ensures x + 3 < FixedPoint.TWO32 ==> RoundUp4(x) % 4 == 0 && RoundUp4(x) < x + 4 && x <= RoundUp4(x)
    ensures x + 3 >= FixedPoint.TWO32 ==> RoundUp4(x) == 0
  {
  }

  /** The word whose four bytes are given, the lowest first. */
  function Join(b0: int, b1: int, b2: int, b3: int): int {
    b0 + 0x100 * b1 + 0x1_0000 * b2 + 0x100_0000 * b3
  }

  /** The word stored in the four bytes that start at address a. */
  function Load(m: seq<Byte>, a: nat): Word
    requires a + 4 <= |m|
  {
    Join(m[a], m[a + 1], m[a + 2], m[a + 3])
  }

  /** The memory after a word store at address a. */
  function Store(m: seq<Byte>, a: nat, w: Word): (r: seq<Byte>)
    requires a + 4 <= |m|
    ensures |r| == |m|
  {
    m[a := w % 0x100][a + 1 := w / 0x100 % 0x100]
     [a + 2 := w / 0x100 / 0x100 % 0x100][a + 3 := w / 0x100 / 0x100 / 0x100]
  }

  /** A load sees the last store to its own address. */
  lemma LoadStored(m: seq<Byte>, a: nat, w: Word)
    requires a + 4 <= |m|
    ensures Load(Store(m, a, w), a) == w
  {
    var r := Store(m, a, w);
    assert r[a] == w % 0x100 && r[a + 1] == w / 0x100 % 0x100;
    assert r[a + 2] == w / 0x100 / 0x100 % 0x100 && r[a + 3] == w / 0x100 / 0x100 / 0x100;
  }

  /** A load is not affected by a store to four other bytes. */
  lemma LoadElsewhere(m: seq<Byte>, a: nat, w: Word, b: nat)
    requires a + 4 <= |m| && b + 4 <= |m|
    requires a + 4 <= b || b + 4 <= a
    ensures Load(Store(m, a, w), b) == Load(m, b)
  {
  }

  /** Memories that agree on the four bytes at a hold the same word there. */
  lemma LoadAgrees(m: seq<Byte>, n: seq<Byte>, a: nat)
    requires a + 4 <= |m| && a + 4 <= |n|
    requires m[a..a + 4] == n[a..a + 4]
    ensures Load(m, a) == Load(n, a)
  {
    assert m[a] == m[a..a + 4][0] && m[a + 1] == m[a..a + 4][1];
    assert m[a + 2] == m[a..a + 4][2] && m[a + 3] == m[a..a + 4][3];
    assert n[a] == n[a..a + 4][0] && n[a + 1] == n[a..a + 4][1];
    assert n[a + 2] == n[a..a + 4][2] && n[a + 3] == n[a..a + 4][3];
  }

  /** A word load from memory. */
  method LoadWord(m: array<Byte>, a: nat) returns (w: Word)
    requires a + 4 <= m.Length
    ensures w == Load(m[..], a)
  {
    w := Join(m[a], m[a + 1], m[a + 2], m[a + 3]);
  }

  /** A word store to memory. */
  method StoreWord(m: array<Byte>, a: nat, w: Word)
    requires a + 4 <= m.Length
    modifies m
    ensures m[..] == Store(old(m[..]), a, w)
  {
    m[a] := w % 0x100;
    m[a + 1] := w / 0x100 % 0x100;
    m[a + 2] := w / 0x100 / 0x100 % 0x100;
    m[a + 3] := w / 0x100 / 0x100 / 0x100;
  }
}
