/** The kernel's memmove, memcpy and memset on one byte-addressed memory. */
module MemOps {
  import opened Ram

  /** The n bytes at s appear at d, and nothing else changes. */
  function Moved(m: seq<Byte>, d: nat, s: nat, n: nat): (r: seq<Byte>)
    requires d + n <= |m| && s + n <= |m|
    ensures |r| == |m|
  {
    seq(|m|, i requires 0 <= i < |m| => if d <= i < d + n then m[s + i - d] else m[i])
  }

  /** Byte-by-byte copying from the front, each byte read after the earlier ones have been written. */
  function Forward(m: seq<Byte>, d: nat, s: nat, n: nat): (r: seq<Byte>)
    requires d + n <= |m| && s + n <= |m|
    ensures |r| == |m|
  {
    if n == 0 then m
    else var r := Forward(m, d, s, n - 1); r[d + n - 1 := r[s + n - 1]]
  }

  function Filled(m: seq<Byte>, s: nat, x: Byte, n: nat): (r: seq<Byte>)
    requires s + n <= |m|
    ensures |r| == |m|
  {
    seq(|m|, i requires 0 <= i < |m| => if s <= i < s + n then x else m[i])
  }

  /** rt_memmove picks the direction in which no byte is overwritten before it has been read. */
  method MemMove(m: array<Byte>, dest: nat, src: nat, n: nat)
    requires dest + n <= m.Length && src + n <= m.Length
    modifies m
    ensures m[..] == Moved(old(m[..]), dest, src, n)
  {
    var tmp, s, k := dest, src, n;
    if s < tmp && tmp < s + k {
      tmp := tmp + k;
      s := s + k;
      while k > 0
        invariant 0 <= k <= n && tmp == dest + k && s == src + k
        invariant forall i :: 0 <= i < m.Length ==>
                    m[i] == old(m[..])[if dest + k <= i < dest + n then src + i - dest else i]
      {
        k := k - 1;
        tmp := tmp - 1;
        s := s - 1;
        m[tmp] := m[s];
      }
    } else {
      while k > 0
        invariant 0 <= k <= n && tmp == dest + (n - k) && s == src + (n - k)
        invariant forall i :: 0 <= i < m.Length ==>
                    m[i] == old(m[..])[if dest <= i < dest + (n - k) then src + i - dest else i]
      {
        m[tmp] := m[s];
        tmp := tmp + 1;
        s := s + 1;
        k := k - 1;
      }
    }
  }

  // ----- memcpy

  /** A word moved through a register carries its four bytes. */
  lemma MoveWord(m: seq<Byte>, a: nat, b: nat)
    requires a + 4 <= |m| && b + 4 <= |m|
    ensures Store(m, a, Load(m, b)) == m[a := m[b]][a + 1 := m[b + 1]][a + 2 := m[b + 2]][a + 3 := m[b + 3]]
  {
    var w := Load(m, b);
    var b0: int, b1: int, b2: int, b3: int := m[b], m[b + 1], m[b + 2], m[b + 3];
    assert w % 0x100 == b0 && w / 0x100 == b1 + 0x100 * b2 + 0x1_0000 * b3;
    assert w / 0x100 % 0x100 == b1 && w / 0x100 / 0x100 == b2 + 0x100 * b3;
  }

  /** When the two addresses are equal or a word apart, moving a word is copying four bytes from the front. */
  lemma WordStep(m: seq<Byte>, d: nat, s: nat, k: nat)
    requires d + k + 4 <= |m| && s + k + 4 <= |m|
    requires d == s || d + 4 <= s || s + 4 <= d
    ensures var r := Forward(m, d, s, k);
            Store(r, d + k, Load(r, s + k)) == Forward(m, d, s, k + 4)
  {
    var r := Forward(m, d, s, k);
    MoveWord(r, d + k, s + k);
    var r1 := Forward(m, d, s, k + 1);
    var r2 := Forward(m, d, s, k + 2);
    var r3 := Forward(m, d, s, k + 3);
    assert r1 == r[d + k := r[s + k]];
    assert r2 == r1[d + k + 1 := r[s + k + 1]];
    assert r3 == r2[d + k + 2 := r[s + k + 2]];
    assert Forward(m, d, s, k + 4) == r3[d + k + 3 := r[s + k + 3]];
  }

  predicate WordApart(d: nat, s: nat) {
    d == s || d + 4 <= s || s + 4 <= d
  }

  method CopyWord(m: array<Byte>, d: nat, s: nat, k: nat, ghost m0: seq<Byte>)
    requires |m0| == m.Length && d + k + 4 <= m.Length && s + k + 4 <= m.Length && WordApart(d, s)
    requires m[..] == Forward(m0, d, s, k)
    modifies m
    ensures m[..] == Forward(m0, d, s, k + 4)
  {
    WordStep(m0, d, s, k);
    var w := LoadWord(m, s + k);
    StoreWord(m, d + k, w);
  }

  /** The body of the first loop: four words. */
  method CopyBlock(m: array<Byte>, d: nat, s: nat, k: nat, ghost m0: seq<Byte>)
    requires |m0| == m.Length && d + k + 16 <= m.Length && s + k + 16 <= m.Length && WordApart(d, s)
    requires m[..] == Forward(m0, d, s, k)
    modifies m
    ensures m[..] == Forward(m0, d, s, k + 16)
  {
    CopyWord(m, d, s, k, m0);
    CopyWord(m, d, s, k + 4, m0);
    CopyWord(m, d, s, k + 8, m0);
    CopyWord(m, d, s, k + 12, m0);
  }

  /** The two word loops; k bytes have been copied when fewer than four are left. */
  method CopyWords(m: array<Byte>, dst: nat, src: nat, count: nat) returns (k: nat)
    requires dst + count <= m.Length && src + count <= m.Length && WordApart(dst, src)
    modifies m
    ensures k <= count < k + 4
    ensures m[..] == Forward(old(m[..]), dst, src, k)
  {
    var len := count;
    k := 0;
    while len >= 16
      invariant 0 <= len && k + len == count
      invariant m[..] == Forward(old(m[..]), dst, src, k)
    {
      CopyBlock(m, dst, src, k, old(m[..]));
      k := k + 16;
      len := len - 16;
    }
    while len >= 4
      invariant 0 <= len && k + len == count
      invariant m[..] == Forward(old(m[..]), dst, src, k)
    {
      CopyWord(m, dst, src, k, old(m[..]));
      k := k + 4;
      len := len - 4;
    }
  }

  /** rt_memcpy: blocks of four words, then words, then bytes. For every length and alignment, and
      every overlap, it does what copying byte by byte does. */
  method MemCpy(m: array<Byte>, dst: nat, src: nat, count: nat)
    requires dst + count <= m.Length && src + count <= m.Length
    modifies m
    ensures m[..] == Forward(old(m[..]), dst, src, count)
  {
    var k := 0;
    if count >= 16 && src % 4 == 0 && dst % 4 == 0 {
      k := CopyWords(m, dst, src, count);
    }
    while k < count
      invariant k <= count
      invariant m[..] == Forward(old(m[..]), dst, src, k)
    {
      m[dst + k] := m[src + k];
      k := k + 1;
    }
  }

  /** Once written, a destination byte is not touched again. */
  lemma {:induction false} ForwardKeeps(m: seq<Byte>, d: nat, s: nat, k: nat, n: nat, a: nat)
    requires d + n <= |m| && s + n <= |m| && k <= n && a < d + k
    ensures Forward(m, d, s, n)[a] == Forward(m, d, s, k)[a]
  {
    if k < n {
      ForwardKeeps(m, d, s, k, n - 1, a);
    }
  }

  lemma {:induction false} ForwardMoves(m: seq<Byte>, d: nat, s: nat, n: nat)
    requires d + n <= |m| && s + n <= |m| && !(s < d < s + n)
    ensures Forward(m, d, s, n) == Moved(m, d, s, n)
  {
    if n > 0 {
      ForwardMoves(m, d, s, n - 1);
    }
  }

  /** Copying from the front is a move for every content of memory exactly when the destination does not begin
      inside the source. */
  lemma ForwardMovesExactly(d: nat, s: nat, n: nat, room: nat)
    requires d + n <= room && s + n <= room
    ensures (forall m: seq<Byte> :: |m| == room ==> Forward(m, d, s, n) == Moved(m, d, s, n)) <==> !(s < d < s + n)
  {
    if s < d < s + n {
      var m: seq<Byte> := seq(room, i => if i == s then 1 else 0);
      ForwardKeeps(m, d, s, d - s + 1, n, d + (d - s));
      ForwardKeeps(m, d, s, 1, d - s, d);
      assert Forward(m, d, s, 1)[d] == m[s];
      assert Forward(m, d, s, n)[d + (d - s)] == 1;
      assert Moved(m, d, s, n)[d + (d - s)] == 0;
    } else {
      forall m: seq<Byte> | |m| == room
        ensures Forward(m, d, s, n) == Moved(m, d, s, n)
      {
        ForwardMoves(m, d, s, n);
      }
    }
  }

  // ----- memset

  lemma FillWord(m: seq<Byte>, a: nat, x: Byte)
    requires a + 4 <= |m|
    ensures Store(m, a, x * 0x0101_0101) == Filled(m, a, x, 4)
  {
    var w := x * 0x0101_0101;
    assert w % 0x100 == x && w / 0x100 == x * 0x1_0101;
    assert w / 0x100 % 0x100 == x && w / 0x100 / 0x100 == x * 0x101;
    assert w / 0x100 / 0x100 % 0x100 == x && w / 0x100 / 0x100 / 0x100 == x;
  }

  method FillOneWord(m: array<Byte>, s: nat, k: nat, x: Byte, buffer: Word, ghost m0: seq<Byte>)
    requires |m0| == m.Length && s + k + 4 <= m.Length && buffer == x * 0x0101_0101
    requires m[..] == Filled(m0, s, x, k)
    modifies m
    ensures m[..] == Filled(m0, s, x, k + 4)
  {
    FillWord(m[..], s + k, x);
    StoreWord(m, s + k, buffer);
  }

  /** The word loops of rt_memset; k bytes have been filled when fewer than four are left. */
  method FillWords(m: array<Byte>, s: nat, d: Byte, count: nat) returns (k: nat)
    requires s + count <= m.Length
    modifies m
    ensures k <= count < k + 4
    ensures m[..] == Filled(old(m[..]), s, d, k)
  {
    var len := count;
    var buffer := d * 0x100 + d;
    buffer := buffer + buffer * 0x1_0000;
    k := 0;
    while len >= 16
      invariant 0 <= len && k + len == count
      invariant m[..] == Filled(old(m[..]), s, d, k)
    {
      FillOneWord(m, s, k, d, buffer, old(m[..]));
      FillOneWord(m, s, k + 4, d, buffer, old(m[..]));
      FillOneWord(m, s, k + 8, d, buffer, old(m[..]));
      FillOneWord(m, s, k + 12, d, buffer, old(m[..]));
      k := k + 16;
      len := len - 16;
    }
    while len >= 4
      invariant 0 <= len && k + len == count
      invariant m[..] == Filled(old(m[..]), s, d, k)
    {
      FillOneWord(m, s, k, d, buffer, old(m[..]));
      k := k + 4;
      len := len - 4;
    }
  }

  /** rt_memset: words of four copies of the byte, then bytes. */
  method MemSet(m: array<Byte>, s: nat, c: int, count: nat)
    requires s + count <= m.Length
    modifies m
    ensures m[..] == Filled(old(m[..]), s, c % 0x100, count)
  {
    var d: Byte := c % 0x100;
    var k := 0;
    if count >= 4 && s % 4 == 0 {
      k := FillWords(m, s, d, count);
    }
    while k < count
      invariant k <= count
      invariant m[..] == Filled(old(m[..]), s, d, k)
    {
      m[s + k] := d;
      k := k + 1;
    }
  }
}
