/** The circular write and read of the signal-processing library. */
module CircularBuffer {
  import Arithmetic

  /** The update of an offset: one subtraction of the length when it has been reached. */
  function Advance(offset: int, inc: int, len: int): int {
    if offset + inc >= len then offset + inc - len else offset + inc
  }

  /** The offset after k updates. */
  function Pos(offset: int, inc: int, len: int, k: nat): int {
    if k == 0 then offset else Advance(Pos(offset, inc, len, k - 1), inc, len)
  }

  /** One subtraction, and no addition, keeps every offset in the buffer exactly for increments between zero and
      the length; negative ones are not wrapped. */
  lemma AdvanceStaysIn(inc: int, len: int)
    requires len > 0
    ensures (forall o :: 0 <= o < len ==> 0 <= Advance(o, inc, len) < len) <==> 0 <= inc <= len
  {
    if inc < 0 {
      assert Advance(0, inc, len) < 0;
    } else if inc > len {
      assert Advance(len - 1, inc, len) >= len;
    }
  }

  lemma {:induction false} PosInRange(offset: int, inc: int, len: int, k: nat)
    requires 0 <= offset < len && 0 <= inc <= len
    ensures 0 <= Pos(offset, inc, len, k) < len
  {
    if k > 0 {
      PosInRange(offset, inc, len, k - 1);
    }
  }

  /** k updates subtract the length some q times. */
  lemma {:induction false} Wraps(offset: int, inc: int, len: int, k: nat) returns (q: int)
    ensures Pos(offset, inc, len, k) + q * len == offset + k * inc
  {
    if k == 0 {
      q := 0;
    } else {
      q := Wraps(offset, inc, len, k - 1);
      assert k * inc == (k - 1) * inc + inc;
      assert (q + 1) * len == q * len + len;
      if Pos(offset, inc, len, k - 1) + inc >= len {
        q := q + 1;
      }
    }
  }

  /** The offset advances by the increment modulo the length. */
  lemma PosIsModular(offset: int, inc: int, len: int, k: nat)
    requires 0 <= offset < len && 0 <= inc <= len
    ensures Pos(offset, inc, len, k) == (offset + k * inc) % len
  {
    PosInRange(offset, inc, len, k);
    var q := Wraps(offset, inc, len, k);
    Arithmetic.Remainder(offset + k * inc, len, q, Pos(offset, inc, len, k));
  }

  /** The first k positions lie in a buffer with the given room. */
  ghost predicate Inside(offset: int, inc: int, len: int, k: nat, room: nat) {
    forall i :: 0 <= i < k ==> 0 <= Pos(offset, inc, len, i) < room
  }

  /** Increments between zero and the length stay inside, however many positions there are. */
  lemma StaysInside(offset: int, inc: int, len: int, k: nat, room: nat)
    requires 0 <= offset < len <= room && 0 <= inc <= len
    ensures Inside(offset, inc, len, k, room)
  {
    forall i | 0 <= i < k
      ensures 0 <= Pos(offset, inc, len, i) < room
    {
      PosInRange(offset, inc, len, i);
    }
  }

  /** The buffer after the samples have been stored at successive positions. */
  function Written<T>(buf: seq<T>, offset: int, inc: int, len: int, samples: seq<T>): (r: seq<T>)
    requires Inside(offset, inc, len, |samples|, |buf|)
    ensures |r| == |buf|
  {
    if samples == [] then buf
    else
      var k := |samples| - 1;
      Written(buf, offset, inc, len, samples[..k])[Pos(offset, inc, len, k) := samples[k]]
  }

  /** k samples from index first on in steps of inc exist. */
  ghost predicate Reachable(first: int, inc: int, k: nat, room: nat) {
    forall i :: 0 <= i < k ==> 0 <= first + i * inc < room
  }

  /** Every inc-th element from index first on. */
  function Strided<T>(src: seq<T>, first: int, inc: int, k: nat): (r: seq<T>)
    requires Reachable(first, inc, k, |src|)
    ensures |r| == k && forall i :: 0 <= i < k ==> r[i] == src[first + i * inc]
  {
    seq(k, i requires 0 <= i < k => src[first + i * inc])
  }

  /** arm_circularWrite: the samples are taken from src, from index first on in steps of srcInc. Any increments will
      do, as long as the positions and the samples that they lead to exist. */
  method CircularWrite<T>(circBuffer: array<T>, len: int, writeOffset: int, bufferInc: int,
                          src: seq<T>, first: int, srcInc: int, blockSize: nat) returns (newOffset: int)
    requires Inside(writeOffset, bufferInc, len, blockSize, circBuffer.Length)
    requires Reachable(first, srcInc, blockSize, |src|)
    modifies circBuffer
    ensures circBuffer[..] == Written(old(circBuffer[..]), writeOffset, bufferInc, len,
                                      Strided(src, first, srcInc, blockSize))
    ensures newOffset == Pos(writeOffset, bufferInc, len, blockSize) % 0x1_0000
  {
    var wOffset, p, i := writeOffset, first, blockSize;
    ghost var samples := Strided(src, first, srcInc, blockSize);
    while i > 0
      invariant 0 <= i <= blockSize && p == first + (blockSize - i) * srcInc
      invariant wOffset == Pos(writeOffset, bufferInc, len, blockSize - i)
      invariant circBuffer[..] == Written(old(circBuffer[..]), writeOffset, bufferInc, len, samples[..blockSize - i])
    {
      ghost var k := blockSize - i;
      assert samples[..k + 1][..k] == samples[..k];
      circBuffer[wOffset] := src[p];
      assert (k + 1) * srcInc == k * srcInc + srcInc;
      p := p + srcInc;
      wOffset := wOffset + bufferInc;
      if wOffset >= len {
        wOffset := wOffset - len;
      }
      i := i - 1;
    }
    assert samples[..blockSize] == samples;
    newOffset := wOffset % 0x1_0000;
  }

  /** The destination offset after i samples: it returns to the base on meeting the end exactly. */
  function DstPos(start: int, inc: int, len: int, i: nat): int {
    if i == 0 then start
    else var d := DstPos(start, inc, len, i - 1) + inc; if d == len then 0 else d
  }

  /** The destination after the samples found at successive positions have been stored. */
  function Copied<T>(buf: seq<T>, offset: int, inc: int, len: int,
                     dst: seq<T>, start: int, dstInc: int, dstLen: int, k: nat): (r: seq<T>)
    requires Inside(offset, inc, len, k, |buf|)
    requires forall i :: 0 <= i < k ==> 0 <= DstPos(start, dstInc, dstLen, i) < |dst|
    ensures |r| == |dst|
  {
    if k == 0 then dst
    else
      Copied(buf, offset, inc, len, dst, start, dstInc, dstLen, k - 1)
        [DstPos(start, dstInc, dstLen, k - 1) := buf[Pos(offset, inc, len, k - 1)]]
  }

  /** The destination base is index 0 of dst; the reads start storing at index start. */
  method CircularRead<T>(circBuffer: array<T>, len: int, readOffset: int, bufferInc: int,
                         dst: array<T>, start: int, dstLen: int, dstInc: int, blockSize: nat)
    returns (newOffset: int)
    requires Inside(readOffset, bufferInc, len, blockSize, circBuffer.Length) && dst != circBuffer
    requires forall i :: 0 <= i < blockSize ==> 0 <= DstPos(start, dstInc, dstLen, i) < dst.Length
    modifies dst
    ensures dst[..] == Copied(circBuffer[..], readOffset, bufferInc, len, old(dst[..]), start, dstInc, dstLen,
                              blockSize)
    ensures newOffset == Pos(readOffset, bufferInc, len, blockSize)
  {
    var d, i := start, blockSize;
    newOffset := readOffset;
    while i > 0
      invariant 0 <= i <= blockSize && d == DstPos(start, dstInc, dstLen, blockSize - i)
      invariant newOffset == Pos(readOffset, bufferInc, len, blockSize - i)
      invariant dst[..] == Copied(circBuffer[..], readOffset, bufferInc, len, old(dst[..]), start, dstInc, dstLen,
                                  blockSize - i)
    {
      dst[d] := circBuffer[newOffset];
      d := d + dstInc;
      if d == dstLen {
        d := 0;
      }
      newOffset := newOffset + bufferInc;
      if newOffset >= len {
        newOffset := newOffset - len;
      }
      i := i - 1;
    }
  }

  // ----- writing, then reading back from the same offset

  /** A cell holds the last sample stored in it, and its old content if there is none. */
  lemma {:induction false} WrittenAt<T>(buf: seq<T>, offset: int, inc: int, len: int, samples: seq<T>, c: nat, i: nat)
    requires Inside(offset, inc, len, |samples|, |buf|) && c < |buf|
    requires forall j :: i <= j < |samples| ==> Pos(offset, inc, len, j) != c
    requires i > 0 ==> i <= |samples| && Pos(offset, inc, len, i - 1) == c
    ensures Written(buf, offset, inc, len, samples)[c] == if i > 0 then samples[i - 1] else buf[c]
  {
    var k := |samples|;
    if k > i {
      WrittenAt(buf, offset, inc, len, samples[..k - 1], c, i);
    }
  }

  /** No two of the first k positions coincide. */
  ghost predicate Spread(offset: int, inc: int, len: int, k: nat) {
    forall i, j :: 0 <= i < j < k ==> Pos(offset, inc, len, i) != Pos(offset, inc, len, j)
  }

  /** The samples that reading at the same positions finds. */
  function ReadBack<T>(buf: seq<T>, offset: int, inc: int, len: int, k: nat): (r: seq<T>)
    requires Inside(offset, inc, len, k, |buf|)
    ensures |r| == k
  {
    if k == 0 then [] else
      ReadBack(buf, offset, inc, len, k - 1) + [buf[Pos(offset, inc, len, k - 1)]]
  }

  lemma {:induction false} ReadBackAt<T>(buf: seq<T>, offset: int, inc: int, len: int, k: nat, i: nat)
    requires Inside(offset, inc, len, k, |buf|) && i < k
    ensures ReadBack(buf, offset, inc, len, k)[i] == buf[Pos(offset, inc, len, i)]
  {
    if i < k - 1 {
      ReadBackAt(buf, offset, inc, len, k - 1, i);
    }
  }

  ghost predicate Returns<T>(buf: seq<T>, offset: int, inc: int, len: int, samples: seq<T>)
    requires Inside(offset, inc, len, |samples|, |buf|)
  {
    ReadBack(Written(buf, offset, inc, len, samples), offset, inc, len, |samples|) == samples
  }

  lemma SpreadReturns<T>(buf: seq<T>, offset: int, inc: int, len: int, s: seq<T>)
    requires Inside(offset, inc, len, |s|, |buf|) && Spread(offset, inc, len, |s|)
    ensures Returns(buf, offset, inc, len, s)
  {
    var w := Written(buf, offset, inc, len, s);
    var r := ReadBack(w, offset, inc, len, |s|);
    forall i | 0 <= i < |s|
      ensures r[i] == s[i]
    {
      ReadBackAt(w, offset, inc, len, |s|, i);
      WrittenAt(buf, offset, inc, len, s, Pos(offset, inc, len, i), i + 1);
    }
  }

  /** Every block of k samples comes back in order exactly when the k positions are distinct. */
  lemma RoundTripExactly<T>(buf: seq<T>, offset: int, inc: int, len: int, k: nat, a: T, b: T)
    requires Inside(offset, inc, len, k, |buf|) && a != b
    ensures (forall s: seq<T> :: |s| == k ==> Returns(buf, offset, inc, len, s)) <==> Spread(offset, inc, len, k)
  {
    if Spread(offset, inc, len, k) {
      forall s: seq<T> | |s| == k
        ensures Returns(buf, offset, inc, len, s)
      {
        SpreadReturns(buf, offset, inc, len, s);
      }
    } else {
      var i, j :| 0 <= i < j < k && Pos(offset, inc, len, i) == Pos(offset, inc, len, j);
      var s := seq(k, n => if n == i then a else b);
      var w := Written(buf, offset, inc, len, s);
      ReadBackAt(w, offset, inc, len, k, i);
      ReadBackAt(w, offset, inc, len, k, j);
      assert s[i] != s[j];
      assert !Returns(buf, offset, inc, len, s);
    }
  }

  /** With unit increments the positions are distinct exactly up to the length of the buffer. */
  lemma UnitSpread(offset: int, len: int, k: nat)
    requires 0 <= offset < len
    ensures Spread(offset, 1, len, k) <==> k <= len
  {
    forall i, j | 0 <= i < j < k && j - i < len
      ensures Pos(offset, 1, len, i) != Pos(offset, 1, len, j)
    {
      var p := Wraps(offset, 1, len, i);
      var q := Wraps(offset, 1, len, j);
      if Pos(offset, 1, len, i) == Pos(offset, 1, len, j) {
        assert (q - p) * len == q * len - p * len == j - i;
        Arithmetic.NoMultiple(q - p, len);
        assert false;
      }
    }
    if k > len {
      PosIsModular(offset, 1, len, len);
      Arithmetic.Remainder(offset + len, len, 1, offset);
      assert Pos(offset, 1, len, 0) == Pos(offset, 1, len, len);
    }
  }

  /** Cells at none of the positions, computed modulo the length, keep their content, however many samples there are. */
  lemma OutsideUntouched<T>(buf: seq<T>, offset: int, inc: int, len: int, samples: seq<T>, c: nat)
    requires 0 <= offset < len <= |buf| && 0 <= inc <= len && c < |buf|
    requires forall j :: 0 <= j < |samples| ==> (offset + j * inc) % len != c
    ensures Inside(offset, inc, len, |samples|, |buf|)
    ensures Written(buf, offset, inc, len, samples)[c] == buf[c]
  {
    StaysInside(offset, inc, len, |samples|, |buf|);
    forall j | 0 <= j < |samples|
      ensures Pos(offset, inc, len, j) != c
    {
      PosIsModular(offset, inc, len, j);
      assert (offset + j * inc) % len != c;
    }
    WrittenAt(buf, offset, inc, len, samples, c, 0);
  }

  /** The read puts what it finds into the destination in order when the destination is long enough. */
  lemma {:induction false} CopiedIsReadBack<T>(buf: seq<T>, offset: int, inc: int, len: int,
                                               dst: seq<T>, dstLen: int, k: nat)
    requires Inside(offset, inc, len, k, |buf|) && k <= dstLen <= |dst|
    ensures forall i :: 0 <= i < k ==> DstPos(0, 1, dstLen, i) == i
    ensures Copied(buf, offset, inc, len, dst, 0, 1, dstLen, k) == ReadBack(buf, offset, inc, len, k) + dst[k..]
  {
    if k > 0 {
      CopiedIsReadBack(buf, offset, inc, len, dst, dstLen, k - 1);
    }
  }

  /** The cell j places behind the offset. */
  function Cell(offset: int, len: int, j: nat): int
    requires len > 0
  {
    (offset + j) % len
  }

  /** The cells that k samples from the offset on go to. */
  function Window(offset: int, len: int, k: nat): set<int>
    requires len > 0
  {
    set j | 0 <= j < k :: Cell(offset, len, j)
  }

  /** An offset in a buffer of at most 2^16 cells fits a half-word. */
  lemma HalfwordKeeps(x: int, len: int)
    requires 0 < len
    ensures len <= 0x1_0000 ==> x % len % 0x1_0000 == x % len
  {
    if len <= 0x1_0000 {
      Arithmetic.SmallRemainder(x % len, 0x1_0000);
    }
  }

  /** Up to len samples, written and read back from the same offset, arrive in order in a destination that is long
      enough; both offsets end behind them. */
  lemma RoundTrip<T>(buf: seq<T>, offset: int, len: int, samples: seq<T>, dst: seq<T>, dstLen: int, k: nat)
    requires 0 <= offset < len <= |buf| && k == |samples| <= len && k <= dstLen <= |dst|
    ensures Inside(offset, 1, len, k, |buf|) && forall i :: 0 <= i < k ==> DstPos(0, 1, dstLen, i) == i
    ensures Copied(Written(buf, offset, 1, len, samples), offset, 1, len, dst, 0, 1, dstLen, k) == samples + dst[k..]
    ensures Pos(offset, 1, len, k) == Cell(offset, len, k)
    ensures len <= 0x1_0000 ==> Pos(offset, 1, len, k) % 0x1_0000 == Cell(offset, len, k)
  {
    StaysInside(offset, 1, len, k, |buf|);
    UnitSpread(offset, len, k);
    SpreadReturns(buf, offset, 1, len, samples);
    CopiedIsReadBack(Written(buf, offset, 1, len, samples), offset, 1, len, dst, dstLen, k);
    PosIsModular(offset, 1, len, k);
    HalfwordKeeps(offset + k, len);
  }

  lemma Untouched<T>(buf: seq<T>, offset: int, len: int, samples: seq<T>, c: nat)
    requires 0 <= offset < len <= |buf| && c < |buf| && c !in Window(offset, len, |samples|)
    ensures Inside(offset, 1, len, |samples|, |buf|)
    ensures Written(buf, offset, 1, len, samples)[c] == buf[c]
  {
    forall j | 0 <= j < |samples|
      ensures (offset + j * 1) % len != c
    {
      assert Cell(offset, len, j) in Window(offset, len, |samples|);
      assert j * 1 == j;
    }
    OutsideUntouched(buf, offset, 1, len, samples, c);
  }

  // ----- the destination of a read

  /** A destination cell holds the last sample stored in it, and its old content if there is none. */
  lemma {:induction false} CopiedAt<T>(buf: seq<T>, offset: int, inc: int, len: int,
                                       dst: seq<T>, start: int, dstInc: int, dstLen: int, k: nat, c: nat, i: nat)
    requires Inside(offset, inc, len, k, |buf|) && c < |dst|
    requires forall j :: 0 <= j < k ==> 0 <= DstPos(start, dstInc, dstLen, j) < |dst|
    requires forall j :: i <= j < k ==> DstPos(start, dstInc, dstLen, j) != c
    requires i > 0 ==> i <= k && DstPos(start, dstInc, dstLen, i - 1) == c
    ensures Copied(buf, offset, inc, len, dst, start, dstInc, dstLen, k)[c]
            == if i > 0 then buf[Pos(offset, inc, len, i - 1)] else dst[c]
  {
    if k > i {
      CopiedAt(buf, offset, inc, len, dst, start, dstInc, dstLen, k - 1, c, i);
    }
  }

  /** In unit steps the destination wraps as the buffer does: behind its last cell comes its base, not the cell that the
      read began with. */
  lemma {:induction false} UnitSteps(start: int, len: int, i: nat)
    requires 0 <= start < len
    ensures DstPos(start, 1, len, i) == Pos(start, 1, len, i) == Cell(start, len, i)
    ensures 0 <= DstPos(start, 1, len, i) < len
  {
    if i > 0 {
      UnitSteps(start, len, i - 1);
    }
    PosInRange(start, 1, len, i);
    PosIsModular(start, 1, len, i);
    assert i * 1 == i;
  }

  lemma MeetsEnd(c: int, n: int, inc: int)
    requires inc > 0
    ensures c * inc + inc == (c + 1) * inc && (c * inc + inc == n * inc <==> c + 1 == n)
  {
    if c * inc + inc == n * inc {
      Arithmetic.NoMultiple(c + 1 - n, inc) by {
        assert (c + 1 - n) * inc == 0;
      }
    }
  }

  /** Steps that divide the destination visit every inc-th cell of it in turn, and begin again at its base. */
  lemma {:induction false} DividingSteps(s: int, inc: int, n: int, i: nat)
    requires 0 <= s < n && inc > 0
    ensures DstPos(s * inc, inc, n * inc, i) == Cell(s, n, i) * inc
  {
    UnitSteps(s, n, i);
    if i > 0 {
      DividingSteps(s, inc, n, i - 1);
      UnitSteps(s, n, i - 1);
      MeetsEnd(Cell(s, n, i - 1), n, inc);
    }
  }

  /** With any other steps the destination runs on until it meets the end exactly, if ever. */
  lemma {:induction false} RunsOn(start: int, inc: int, len: int, i: nat)
    requires forall j :: 0 < j <= i ==> start + j * inc != len
    ensures DstPos(start, inc, len, i) == start + i * inc
  {
    if i > 0 {
      RunsOn(start, inc, len, i - 1);
      assert (i - 1) * inc + inc == i * inc;
      assert start + i * inc != len;
    }
  }

  /** And once it has met the end it goes on as from its base. */
  lemma {:induction false} GoesOnFromBase(start: int, inc: int, len: int, i: nat, m: nat)
    requires i > 0 && start + i * inc == len && forall j :: 0 < j < i ==> start + j * inc != len
    ensures DstPos(start, inc, len, i + m) == DstPos(0, inc, len, m)
  {
    if m > 0 {
      GoesOnFromBase(start, inc, len, i, m - 1);
    } else {
      RunsOn(start, inc, len, i - 1);
      assert (i - 1) * inc + inc == i * inc;
    }
  }

  /** A read of up to dstLen samples, begun at any cell of the destination: sample i lands start + i cells behind its
      base, modulo its length, and the other cells are as before. */
  lemma WrappedRead<T>(buf: seq<T>, offset: int, inc: int, len: int, dst: seq<T>, start: int, dstLen: int, k: nat)
    requires Inside(offset, inc, len, k, |buf|) && 0 <= start < dstLen <= |dst| && k <= dstLen
    ensures forall i :: 0 <= i < k ==> 0 <= DstPos(start, 1, dstLen, i) < |dst|
    ensures forall i :: 0 <= i < k ==> 0 <= Cell(start, dstLen, i) < |dst|
    ensures forall i :: 0 <= i < k ==> Copied(buf, offset, inc, len, dst, start, 1, dstLen, k)[Cell(start, dstLen, i)]
                                       == buf[Pos(offset, inc, len, i)]
    ensures forall c :: 0 <= c < |dst| && c !in Window(start, dstLen, k)
                        ==> Copied(buf, offset, inc, len, dst, start, 1, dstLen, k)[c] == dst[c]
  {
    forall i: nat
      ensures DstPos(start, 1, dstLen, i) == Pos(start, 1, dstLen, i) == Cell(start, dstLen, i)
      ensures 0 <= DstPos(start, 1, dstLen, i) < dstLen
    {
      UnitSteps(start, dstLen, i);
    }
    UnitSpread(start, dstLen, k);
    forall i | 0 <= i < k
      ensures Copied(buf, offset, inc, len, dst, start, 1, dstLen, k)[Cell(start, dstLen, i)]
              == buf[Pos(offset, inc, len, i)]
    {
      CopiedAt(buf, offset, inc, len, dst, start, 1, dstLen, k, Cell(start, dstLen, i), i + 1);
    }
    forall c | 0 <= c < |dst| && c !in Window(start, dstLen, k)
      ensures Copied(buf, offset, inc, len, dst, start, 1, dstLen, k)[c] == dst[c]
    {
      CopiedAt(buf, offset, inc, len, dst, start, 1, dstLen, k, c, 0);
    }
  }

  /** Writing and reading back into a destination that wraps. */
  lemma WrappedRoundTrip<T>(buf: seq<T>, offset: int, len: int, samples: seq<T>,
                            dst: seq<T>, start: int, dstLen: int, k: nat)
    requires 0 <= offset < len <= |buf| && k == |samples| <= len && 0 <= start < dstLen <= |dst| && k <= dstLen
    ensures Inside(offset, 1, len, k, |buf|)
    ensures forall i :: 0 <= i < k ==> 0 <= DstPos(start, 1, dstLen, i) < |dst| && 0 <= Cell(start, dstLen, i) < |dst|
    ensures var r := Copied(Written(buf, offset, 1, len, samples), offset, 1, len, dst, start, 1, dstLen, k);
            && (forall i :: 0 <= i < k ==> r[Cell(start, dstLen, i)] == samples[i])
            && (forall c :: 0 <= c < |dst| && c !in Window(start, dstLen, k) ==> r[c] == dst[c])
  {
    StaysInside(offset, 1, len, k, |buf|);
    UnitSpread(offset, len, k);
    SpreadReturns(buf, offset, 1, len, samples);
    var w := Written(buf, offset, 1, len, samples);
    WrappedRead(w, offset, 1, len, dst, start, dstLen, k);
    forall i | 0 <= i < k
      ensures w[Pos(offset, 1, len, i)] == samples[i]
    {
      ReadBackAt(w, offset, 1, len, k, i);
    }
  }

  /** A write of at most len samples in unit steps. */
  method WriteBlock<T>(circBuffer: array<T>, len: int, offset: int, src: seq<T>) returns (w: int)
    requires 0 <= offset < len <= circBuffer.Length && Inside(offset, 1, len, |src|, circBuffer.Length)
    modifies circBuffer
    ensures circBuffer[..] == Written(old(circBuffer[..]), offset, 1, len, src)
    ensures w == Pos(offset, 1, len, |src|) % 0x1_0000
    ensures forall c :: 0 <= c < circBuffer.Length && c !in Window(offset, len, |src|)
                        ==> circBuffer[c] == old(circBuffer[c])
  {
    ghost var before := circBuffer[..];
    w := CircularWrite(circBuffer, len, offset, 1, src, 0, 1, |src|);
    assert Strided(src, 0, 1, |src|) == src;
    assert circBuffer[..] == Written(before, offset, 1, len, src);
    forall c | 0 <= c < circBuffer.Length && c !in Window(offset, len, |src|)
      ensures circBuffer[c] == before[c]
    {
      Untouched(before, offset, len, src, c);
      assert circBuffer[c] == circBuffer[..][c];
    }
  }

  /** Reading back what has been written into buf. */
  method ReadBlock<T>(circBuffer: array<T>, len: int, offset: int, dst: array<T>, start: int, dstLen: int, k: nat,
                      ghost buf: seq<T>, ghost samples: seq<T>) returns (r: int)
    requires 0 <= offset < len <= |buf| && k == |samples| <= len && 0 <= start < dstLen <= dst.Length && k <= dstLen
    requires Inside(offset, 1, len, k, |buf|) && circBuffer[..] == Written(buf, offset, 1, len, samples)
    requires dst != circBuffer
    modifies dst
    ensures r == Pos(offset, 1, len, k)
    ensures forall i :: 0 <= i < k ==> 0 <= Cell(start, dstLen, i) < dst.Length
                                       && dst[Cell(start, dstLen, i)] == samples[i]
    ensures forall c :: 0 <= c < dst.Length && c !in Window(start, dstLen, k) ==> dst[c] == old(dst[c])
  {
    WrappedRoundTrip(buf, offset, len, samples, dst[..], start, dstLen, k);
    r := CircularRead(circBuffer, len, offset, 1, dst, start, dstLen, 1, k);
    ghost var after := dst[..];
    assert forall c :: 0 <= c < dst.Length ==> dst[c] == after[c];
  }

  /** The same on the arrays: a write, then a read from the same offset into a destination that is begun at any cell and
      wraps. Nothing outside the two windows has changed. */
  method WriteThenRead<T>(circBuffer: array<T>, len: int, offset: int, src: seq<T>,
                          dst: array<T>, start: int, dstLen: int)
    returns (w: int, r: int)
    requires 0 <= offset < len <= circBuffer.Length && len <= 0x1_0000 && dst != circBuffer
    requires |src| <= len && |src| <= dstLen <= dst.Length && 0 <= start < dstLen
    modifies circBuffer, dst
    ensures forall i :: 0 <= i < |src| ==> 0 <= Cell(start, dstLen, i) < dst.Length
                                           && dst[Cell(start, dstLen, i)] == src[i]
    ensures forall c :: 0 <= c < dst.Length && c !in Window(start, dstLen, |src|) ==> dst[c] == old(dst[c])
    ensures w == r == Cell(offset, len, |src|)
    ensures forall c :: 0 <= c < circBuffer.Length && c !in Window(offset, len, |src|)
                        ==> circBuffer[c] == old(circBuffer[c])
  {
    ghost var before := circBuffer[..];
    StaysInside(offset, 1, len, |src|, circBuffer.Length);
    UnitSteps(offset, len, |src|);
    HalfwordKeeps(offset + |src|, len);
    w := WriteBlock(circBuffer, len, offset, src);
    r := ReadBlock(circBuffer, len, offset, dst, start, dstLen, |src|, before, src);
  }
}
