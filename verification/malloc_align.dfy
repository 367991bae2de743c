/** Aligned allocation: the heap's pointer is hidden in the word before the aligned block. */
module MallocAlign {
  import Arithmetic
  import opened FixedPoint
  import opened Ram
  import opened Bits

  /** The size asked from the heap. */
  function Asked(size: Word, align: Word): Word {
    (RoundUp4(size) + RoundUp4(align)) % TWO32
  }

  /** The aligned pointer for the heap's pointer p and the rounded alignment a. */
  function Aligned(p: nat, a: nat): nat
    requires a > 0
  {
    if And(p, a - 1) == 0 then p + a else AndNot(p + (a - 1), a - 1)
  }

  /** No 32-bit addition wraps. */
  predicate NoWrap(size: Word, align: Word) {
    size + 3 < TWO32 && align + 3 < TWO32 && RoundUp4(size) + RoundUp4(align) < TWO32
  }

  lemma RoundUpFacts(x: Word)
    requires x + 3 < TWO32
    ensures RoundUp4(x) % 4 == 0 && x <= RoundUp4(x) < x + 4
    ensures x > 0 ==> RoundUp4(x) >= 4
  {
  }

  /** The heap is asked for room enough exactly when no addition wraps. */
  lemma AskedIsEnough(size: Word, align: Word)
    ensures Asked(size, align) >= size + align <==> NoWrap(size, align)
    ensures NoWrap(size, align) ==> Asked(size, align) >= size + RoundUp4(align)
  {
    if size <= TWO32 - 4 {
      RoundUpFacts(size);
    }
    if align <= TWO32 - 4 {
      RoundUpFacts(align);
    }
  }

  lemma LowBits(p: nat, m: nat, s: nat, k: nat)
    requires s == p + m && k <= m / 2 && BothOdd(s, m) + 2 * k == m
    ensures k == m / 2 && BothOdd(p, m) == 0 && s / 2 == p / 2 + m / 2
  {
  }

  /** With all bits of m set in p + m, p has none of them. */
  lemma {:induction false} NoCarry(p: nat, m: nat)
    requires And(p + m, m) == m
    ensures And(p, m) == 0
  {
    if m > 0 && p > 0 {
      var s := p + m;
      AndStep(s, m);
      AndStep(p, m);
      AndBelow(s / 2, m / 2);
      LowBits(p, m, s, And(s / 2, m / 2));
      NoCarry(p / 2, m / 2);
    }
  }

  lemma TwoBits(x: nat, m: nat, k: nat)
    requires m % 4 == 3
    ensures (BothOdd(x, m) + 2 * (BothOdd(x / 2, m / 2) + 2 * k)) % 4 == x % 4
  {
    var b, c := x % 2, x / 2 % 2;
    assert m % 2 == 1 && m / 2 % 2 == 1;
    assert BothOdd(x, m) == b && BothOdd(x / 2, m / 2) == c;
    assert x == 4 * (x / 2 / 2) + (b + 2 * c);
  }

  /** The two low bits of a mask that ends in two ones. */
  lemma LowBitsOf(x: nat, m: nat)
    requires m % 4 == 3
    ensures And(x, m) % 4 == x % 4
  {
    AndStep(x, m);
    AndStep(x / 2, m / 2);
    TwoBits(x, m, And(x / 2 / 2, m / 2 / 2));
  }

  lemma NextWord(p: nat, m: nat, k: nat)
    requires p % 4 == 0 && k < m && k % 4 == (p + m) % 4
    ensures p + 4 <= p + m - k
  {
  }

  /** Clearing the bits of the mask leaves room for a word: they are not all set in the sum of p and the mask. */
  lemma MaskedWord(p: nat, m: nat)
    requires m % 4 == 3 && p % 4 == 0 && And(p, m) != 0
    ensures p + 4 <= p + m - And(p + m, m)
  {
    AndBelow(p + m, m);
    if And(p + m, m) == m {
      NoCarry(p, m);
    }
    LowBitsOf(p + m, m);
    NextWord(p, m, And(p + m, m));
  }

  lemma HiddenWordFits(p: nat, a: nat)
    requires a >= 4 && a % 4 == 0 && p % 4 == 0
    ensures p + 4 <= Aligned(p, a) <= p + a
  {
    if And(p, a - 1) != 0 {
      MaskedWord(p, a - 1);
    }
  }

  /** What the two masks compute. */
  lemma AlignedMeans(p: nat, a: nat)
    requires a > 0 && IsPow2(a)
    ensures Aligned(p, a) == if p % a == 0 then p + a else p + (a - 1) - (p + (a - 1)) % a
  {
    var k: nat :| Pow2(k) == a;
    AndMask(p, k);
    AndMask(p + (a - 1), k);
  }

  lemma Divided(p: nat, a: nat) returns (q: nat, m: nat)
    requires a > 0
    ensures p == q * a + m && m < a && m == p % a
  {
    q, m := p / a, p % a;
  }

  lemma MultipleOfFour(q: nat, b: nat)
    ensures q * (4 * b) % 4 == 0
  {
    assert q * (4 * b) == (q * b) * 4;
    Arithmetic.Remainder(q * (4 * b), 4, q * b, 0);
  }

  lemma NextMultiple(q: nat, a: nat)
    requires a > 0 && a % 4 == 0
    ensures (q + 1) * a == q * a + a && (q * a + a) % a == 0 && q * a % 4 == 0
  {
    Arithmetic.Remainder((q + 1) * a, a, q + 1, 0);
    MultipleOfFour(q, a / 4);
    assert a == 4 * (a / 4);
  }

  /** Between multiples of four there is room for a word. */
  lemma Gap(p: nat, a: nat, t: nat, m: nat)
    requires p == t + m && m < a && p % 4 == 0 && t % 4 == 0 && a % 4 == 0
    ensures a - m >= 4
  {
  }

  /** The next multiple of a, itself a multiple of four. */
  lemma AlignUp(p: nat, a: nat)
    requires a >= 4 && a % 4 == 0 && p % 4 == 0
    ensures var r := if p % a == 0 then p + a else p + (a - 1) - (p + (a - 1)) % a;
            r % a == 0 && p + 4 <= r <= p + a
  {
    var q, m := Divided(p, a);
    NextMultiple(q, a);
    Gap(p, a, q * a, m);
    if m == 0 {
      Arithmetic.Remainder(p + a, a, q + 1, 0);
    } else {
      Arithmetic.Remainder(p + (a - 1), a, q + 1, m - 1);
    }
  }

  /** Whatever the alignment, the hidden word lies before the pointer inside the heap's block, and so do the size bytes
      after it; for a power of two the pointer is aligned. */
  lemma AlignedPointer(p: nat, size: Word, align: Word)
    requires NoWrap(size, align) && align > 0 && p % 4 == 0
    ensures var r := Aligned(p, RoundUp4(align));
            && p + 4 <= r && r + size <= p + Asked(size, align)
            && (IsPow2(RoundUp4(align)) ==> r % RoundUp4(align) == 0)
  {
    var a := RoundUp4(align);
    RoundUpFacts(align);
    AskedIsEnough(size, align);
    HiddenWordFits(p, a);
    if IsPow2(a) {
      AlignedMeans(p, a);
      AlignUp(p, a);
    }
  }

  /** ptr is aligned if that was asked for with a power of two, its size bytes lie in the heap's block, and the word
      before it is the heap's pointer. */
  ghost predicate Handle(m: seq<Byte>, heap: Word, ptr: Word, size: Word, align: Word) {
    && RoundUp4(align) > 0 && (IsPow2(RoundUp4(align)) ==> ptr % RoundUp4(align) == 0)
    && heap + 4 <= ptr <= |m| && ptr + size <= heap + Asked(size, align)
    && Load(m, ptr - 4) == heap
  }

  /** rt_malloc_align. The heap has answered the request for Asked(size, align) bytes with the pointer
      heap, or with zero for failure. */
  method MallocAlign(mem: array<Byte>, size: Word, align: Word, heap: Word) returns (ptr: Word)
    requires NoWrap(size, align) && align > 0
    requires heap % 4 == 0 && heap + Asked(size, align) <= mem.Length < TWO32
    modifies mem
    ensures heap == 0 ==> ptr == 0 && mem[..] == old(mem[..])
    ensures heap != 0 ==> Handle(mem[..], heap, ptr, size, align)
    ensures forall i :: 0 <= i < mem.Length && !(heap <= i < heap + Asked(size, align)) ==> mem[i] == old(mem[i])
  {
    var a := RoundUp4(align);
    var alignSize := Asked(size, align);
    ptr := heap;
    if ptr != 0 {
      AlignedPointer(heap, size, align);
      RoundUpFacts(size);
      var alignPtr := Aligned(heap, a);
      assert alignPtr <= heap + alignSize < TWO32;
      LoadStored(mem[..], alignPtr - 4, heap);
      StoreWord(mem, alignPtr - 4, ptr);
      ptr := alignPtr;
    }
  }

  /** rt_free_align: what is handed to rt_free is the pointer that the heap gave for this handle. */
  method FreeAlign(mem: array<Byte>, ptr: Word, ghost heap: Word, ghost size: Word, ghost align: Word)
    returns (realPtr: Word)
    requires Handle(mem[..], heap, ptr, size, align)
    ensures realPtr == heap
  {
    realPtr := LoadWord(mem, ptr - 4);
  }

  /** However the holder fills its bytes, the handle stays a handle for the heap's pointer. */
  lemma HiddenPointerSurvives(m: seq<Byte>, n: seq<Byte>, heap: Word, ptr: Word, size: Word, align: Word)
    requires Handle(m, heap, ptr, size, align) && |n| == |m|
    requires forall i :: 0 <= i < |m| && !(ptr <= i < ptr + size) ==> n[i] == m[i]
    ensures Handle(n, heap, ptr, size, align)
  {
    assert m[ptr - 4..ptr] == n[ptr - 4..ptr];
    LoadAgrees(m, n, ptr - 4);
  }

  /** Allocating, filling the bytes in any way and freeing: the heap gets its own pointer back, and the only other
      bytes that have changed lie in the heap's block. */
  method AllocateFillFree(mem: array<Byte>, size: Word, align: Word, heap: Word, fill: seq<Byte>)
    returns (ptr: Word, freed: Word)
    requires NoWrap(size, align) && align > 0
    requires heap % 4 == 0 && heap + Asked(size, align) <= mem.Length < TWO32 && |fill| == size
    modifies mem
    ensures freed == heap
    ensures heap != 0 ==> Handle(mem[..], heap, ptr, size, align) && mem[ptr..ptr + size] == fill
    ensures forall i :: 0 <= i < mem.Length && !(heap <= i < heap + Asked(size, align)) ==> mem[i] == old(mem[i])
  {
    ptr := MallocAlign(mem, size, align, heap);
    if ptr == 0 {
      return ptr, 0;
    }
    ghost var m := mem[..];
    forall i | ptr <= i < ptr + size {
      mem[i] := fill[i - ptr];
    }
    HiddenPointerSurvives(m, mem[..], heap, ptr, size, align);
    freed := FreeAlign(mem, ptr, heap, size, align);
  }

  lemma {:induction false} AndSelf(x: nat)
    ensures And(x, x) == x
  {
    if x > 0 {
      AndStep(x, x);
      AndSelf(x / 2);
    }
  }

  /** Only a power of two has no bit in common with its predecessor. */
  lemma {:induction false} SingleBit(b: nat)
    requires b > 0 && And(b, b - 1) == 0
    ensures IsPow2(b)
  {
    AndStep(b, b - 1);
    if b == 1 {
      assert Pow2(0) == 1;
    } else if b % 2 == 1 {
      assert (b - 1) / 2 == b / 2;
      AndSelf(b / 2);
    } else {
      assert (b - 1) / 2 == b / 2 - 1;
      SingleBit(b / 2);
      var k: nat :| Pow2(k) == b / 2;
      assert Pow2(k + 1) == b;
    }
  }

  lemma QuarterOf(q: nat)
    requires q > 0
    ensures (4 * q + 3) / 2 == 2 * q + 1 && (4 * q - 1) / 2 == 2 * q - 1
    ensures (2 * q + 1) / 2 == q && (2 * q - 1) / 2 == q - 1
    ensures BothOdd(4 * q + 3, 4 * q - 1) == 1 && BothOdd(2 * q + 1, 2 * q - 1) == 1
  {
  }

  /** The mask test of the word above 4 * q. */
  lemma WordAbove(q: nat)
    requires q > 0
    ensures And(4 * q + 3, 4 * q - 1) == 3 + 4 * And(q, q - 1)
  {
    AndStep(4 * q + 3, 4 * q - 1);
    AndStep(2 * q + 1, 2 * q - 1);
    QuarterOf(q);
  }

  lemma OnlyMultiple(r: nat, a: nat)
    requires 4 < a && 8 <= r <= a + 4 && r % a == 0
    ensures r == a
  {
    if r > a {
      Arithmetic.Remainder(r, a, 1, r - a);
    } else if r < a {
      Arithmetic.SmallRemainder(r, a);
    }
  }

  /** If the lowest pointer that a heap can return is aligned to a, then a is a power of two. */
  lemma LowestPointer(a: nat)
    requires a > 4 && a % 4 == 0 && Aligned(4, a) % a == 0
    ensures IsPow2(a)
  {
    var r := Aligned(4, a);
    HiddenWordFits(4, a);
    OnlyMultiple(r, a);
    assert r == a;
    WordAbove(a / 4);
    SingleBit(a / 4);
    var k: nat :| Pow2(k) == a / 4;
    assert Pow2(k + 2) == 2 * Pow2(k + 1) == a;
  }

  /** The rounded alignment must be a power of two: with any other one, the lowest heap pointer already makes the result
      unaligned. The alignment must leave room for a heap pointer at all. */
  lemma AlignedExactlyForPowers(a: nat)
    requires 4 <= a && a % 4 == 0 && a + 4 < TWO32
    ensures (forall p: Word :: p % 4 == 0 && 0 < p && p + a < TWO32 ==> Aligned(p, a) % a == 0) <==> IsPow2(a)
  {
    if IsPow2(a) {
      forall p: Word | p % 4 == 0 && 0 < p
        ensures Aligned(p, a) % a == 0
      {
        AlignedMeans(p, a);
        AlignUp(p, a);
      }
    } else {
      assert a != 4 by { assert Pow2(2) == 4; }
      if Aligned(4, a) % a == 0 {
        LowestPointer(a);
      }
    }
  }
}
