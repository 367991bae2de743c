/** The bounded printf engine: loops that advance through the format and the buffer. The array is all of memory
    from the buffer on, so that a write behind the buffer would be seen. */
module Printf {
  import opened FixedPoint
  import opened NumberText
  import opened FormatText
  import opened Emission

  /** buf, which held b before, has the text done in it and str is the next position. */
  ghost predicate Holds(buf: seq<char>, b: seq<char>, done: string, str: nat, end: nat) {
    buf == Blit(b, 0, done, end) && str == |done|
  }

  lemma HoldsMore(b: seq<char>, done: string, t: string, end: nat)
    ensures Blit(Blit(b, 0, done, end), |done|, t, end) == Blit(b, 0, done + t, end)
  {
  }

  /** The end test around every store. */
  method Put(buf: array<char>, str: nat, end: nat, c: char, ghost b: seq<char>, ghost done: string) returns (next: nat)
    requires end < buf.Length && Holds(buf[..], b, done, str, end)
    modifies buf
    ensures Holds(buf[..], b, done + [c], next, end)
  {
    HoldsMore(b, done, [c], end);
    if str <= end {
      buf[str] := c;
    }
    next := str + 1;
  }

  /** The padding loops: while (size-- > 0). */
  method Pad(buf: array<char>, str: nat, end: nat, c: char, size: int, ghost b: seq<char>, ghost done: string)
    returns (next: nat, left: int)
    requires end < buf.Length && Holds(buf[..], b, done, str, end)
    modifies buf
    ensures Holds(buf[..], b, done + Repeat(c, size), next, end)
    ensures left == Spent(size)
  {
    next, left := str, size;
    ghost var n: int := 0;
    assert done + Repeat(c, 0) == done;
    while left > 0
      invariant left == size - n && 0 <= n && (n > 0 ==> left >= 0)
      invariant Holds(buf[..], b, done + Repeat(c, n), next, end)
    {
      assert done + Repeat(c, n + 1) == done + Repeat(c, n) + [c];
      next := Put(buf, next, end, c, b, done + Repeat(c, n));
      left := left - 1;
      n := n + 1;
    }
    assert size <= 0 ==> Repeat(c, size) == Repeat(c, 0);
    left := left - 1;
  }

  /** The digits left in tmp, in the order in which they are emitted. */
  function Back(tmp: seq<char>, i: nat): string
    requires i <= |tmp|
  {
    if i == 0 then "" else [tmp[i - 1]] + Back(tmp, i - 1)
  }

  lemma {:induction false} BackSame(s: seq<char>, t: seq<char>, i: nat)
    requires i <= |s| && i <= |t| && s[..i] == t[..i]
    ensures Back(s, i) == Back(t, i)
  {
    if i > 0 {
      assert s[i - 1] == s[..i][i - 1] && t[i - 1] == t[..i][i - 1];
      assert s[..i - 1] == s[..i][..i - 1] && t[..i - 1] == t[..i][..i - 1];
      BackSame(s, t, i - 1);
    }
  }

  function DigitsLeft(n: nat, radix: Radix, large: bool): string {
    if n == 0 then "" else DigitsOf(n, radix, large)
  }

  lemma DigitsSplit(n: nat, radix: Radix, large: bool)
    requires n > 0
    ensures Quotient(n, radix) < n
    ensures DigitsLeft(n, radix, large)
            == DigitsLeft(Quotient(n, radix), radix, large) + [DigitChar(Last(n, radix), large)]
  {
    DivisionMeans(n, radix);
    if n < radix {
      assert Quotient(n, radix) == 0 && Last(n, radix) == n;
    }
  }

  lemma Shifted(a: string, c: char, b: string)
    ensures a + ([c] + b) == a + [c] + b
  {
  }

  /** Fills the local buffer with the digits of m, the last one first. */
  method MakeDigits(m: nat, radix: Radix, large: bool) returns (tmp: array<char>, i: nat)
    requires |DigitsOf(m, radix, large)| <= 10
    ensures fresh(tmp) && i <= tmp.Length
    ensures Back(tmp[..], i) == DigitsOf(m, radix, large) && i == |DigitsOf(m, radix, large)|
  {
    tmp := new char[16];
    i := 0;
    if m == 0 {
      tmp[0] := '0';
      i := 1;
      assert Back(tmp[..], 0) == "";
      return;
    }
    var n := m;
    ghost var text := DigitsOf(m, radix, large);
    while n != 0
      invariant i + |DigitsLeft(n, radix, large)| == |text|
      invariant DigitsLeft(n, radix, large) + Back(tmp[..], i) == text
      decreases n
    {
      DigitsSplit(n, radix, large);
      ghost var before := tmp[..];
      tmp[i] := DigitChar(Last(n, radix), large);
      BackSame(before, tmp[..], i);
      Shifted(DigitsLeft(Quotient(n, radix), radix, large), tmp[i], Back(before, i));
      n := Quotient(n, radix);
      i := i + 1;
    }
    assert "" + Back(tmp[..], i) == Back(tmp[..], i);
  }

  /** Emits the digits from the local buffer. */
  method PutDigits(buf: array<char>, str: nat, end: nat, tmp: array<char>, i: nat,
                   ghost b: seq<char>, ghost done: string)
    returns (next: nat)
    requires end < buf.Length && Holds(buf[..], b, done, str, end) && tmp != buf && i <= tmp.Length
    modifies buf
    ensures Holds(buf[..], b, done + Back(tmp[..], i), next, end)
  {
    next := str;
    var k := i;
    ghost var sent := done;
    while k > 0
      invariant 0 <= k <= i && Holds(buf[..], b, sent, next, end)
      invariant sent + Back(tmp[..], k) == done + Back(tmp[..], i)
    {
      k := k - 1;
      Shifted(sent, tmp[k], Back(tmp[..], k));
      next := Put(buf, next, end, tmp[k], b, sent);
      sent := sent + [tmp[k]];
    }
    assert sent + "" == sent;
  }

  lemma Regroup(a: string, b: string, c: string, d: string, e: string)
    ensures a + b + c + d + e == a + (b + c + d + e)
  {
  }

  /** The part of print_number behind the sign. */
  method PutAfterSign(buf: array<char>, str: nat, end: nat, tmp: array<char>, i: nat,
                      size: int, precision: int, f: Flags, ghost b: seq<char>, ghost done: string) returns (next: nat)
    requires end < buf.Length && Holds(buf[..], b, done, str, end) && tmp != buf && i <= tmp.Length
    requires |Back(tmp[..], i)| == i
    modifies buf
    ensures Holds(buf[..], b, done + AfterSignText(Back(tmp[..], i), size, precision, f), next, end)
  {
    ghost var digits := Back(tmp[..], i);
    next := str;
    var left, zeros := size, 0;
    ghost var t1 := if f.left then "" else Repeat(if Zeroed(f) then '0' else ' ', size);
    if !f.left {
      next, left := Pad(buf, next, end, if Zeroed(f) then '0' else ' ', left, b, done);
    } else {
      assert done + t1 == done;
    }
    ghost var t2 := Repeat('0', precision - |digits|);
    next, zeros := Pad(buf, next, end, '0', precision - i, b, done + t1);
    ghost var t3 := if precision != 0 then digits else "";
    if precision != 0 {
      next := PutDigits(buf, next, end, tmp, i, b, done + t1 + t2);
    } else {
      assert done + t1 + t2 + t3 == done + t1 + t2;
    }
    next, left := Pad(buf, next, end, ' ', left, b, done + t1 + t2 + t3);
    Regroup(done, t1, t2, t3, Repeat(' ', if f.left then size else Spent(size)));
  }

  /** The part of print_number up to the sign: leading blanks, and the sign if there is one. */
  method PutSign(buf: array<char>, str: nat, end: nat, sgn: string, size: int, f: Flags,
                 ghost b: seq<char>, ghost done: string)
    returns (next: nat, left: int)
    requires end < buf.Length && Holds(buf[..], b, done, str, end) && |sgn| <= 1
    modifies buf
    ensures Holds(buf[..], b, done + Repeat(' ', LeadCount(sgn, size, f)) + sgn, next, end)
    ensures left == AfterSign(sgn, size, f, str + Max(0, LeadCount(sgn, size, f)) <= end)
  {
    next, left := str, size;
    ghost var blanks := Repeat(' ', LeadCount(sgn, size, f));
    if Leading(f) {
      if sgn != "" && left > 0 {
        left := left - 1;
      }
      next, left := Pad(buf, next, end, ' ', left, b, done);
    } else {
      assert done + blanks == done;
    }
    if sgn != "" {
      assert sgn == [sgn[0]];
      if next <= end {
        left := left - 1;
      }
      next := Put(buf, next, end, sgn[0], b, done + blanks);
    } else {
      assert done + blanks + sgn == done + blanks;
    }
  }

  lemma Regroup3(a: string, b: string, c: string, d: string)
    ensures a + b + c + d == a + (b + c + d)
  {
  }

  /** print_number */
  method PrintNumber(buf: array<char>, str: nat, end: nat, n: Number, ghost b: seq<char>, ghost done: string)
    returns (next: nat)
    requires end < buf.Length && Holds(buf[..], b, done, str, end)
    modifies buf
    ensures Holds(buf[..], b, done + TextAt(NumberItem(n), str, end), next, end)
  {
    var sgn := SignText(n.num, n.flags);
    CellsSuffice(n.num, n.base, n.flags);
    var tmp, i := MakeDigits(Magnitude(n.num, n.flags), RadixOf(n.base), n.flags.large);
    var size := n.width - Max(i, n.precision);
    var left;
    next, left := PutSign(buf, str, end, sgn, size, n.flags, b, done);
    ghost var blanks := Repeat(' ', LeadCount(sgn, size, n.flags));
    next := PutAfterSign(buf, next, end, tmp, i, left, n.precision, n.flags, b, done + blanks + sgn);
    Regroup3(done, blanks, sgn, AfterSignText(Back(tmp[..], i), left, n.precision, n.flags));
  }

  // ----- the format

  method ReadFlags(fmt: string, start: nat) returns (f: Flags, i: nat)
    requires start <= |fmt|
    ensures (f, i) == ParseFlags(fmt, start, PLAIN)
  {
    f, i := PLAIN, start;
    while true
      invariant i <= |fmt| && ParseFlags(fmt, i, f) == ParseFlags(fmt, start, PLAIN)
      decreases |fmt| - i
    {
      var c := At(fmt, i);
      if c == '-' {
        f := f.(left := true);
      } else if c == '+' {
        f := f.(plus := true);
      } else if c == ' ' {
        f := f.(space := true);
      } else if c == '#' {
      } else if c == '0' {
        f := f.(zeropad := true);
      } else {
        break;
      }
      i := i + 1;
    }
  }

  method ReadInt(fmt: string, start: nat) returns (v: int, i: nat)
    requires start <= |fmt|
    ensures (v, i) == SkipAtoi(fmt, start, 0)
  {
    v, i := 0, start;
    while IsDigit(At(fmt, i))
      invariant i <= |fmt| && SkipAtoi(fmt, i, v) == SkipAtoi(fmt, start, 0)
      decreases |fmt| - i
    {
      v := v * 10 + (fmt[i] - '0') as int;
      i := i + 1;
    }
  }

  method ReadWidth(fmt: string, j: nat, f: Flags, k: nat, args: Args) returns (s: Spec)
    requires j <= |fmt|
    ensures s == ParseWidth(fmt, j, f, k, args)
  {
    s := Spec(f, -1, -1, false, j, k);
    if IsDigit(At(fmt, j)) {
      var w, e := ReadInt(fmt, j);
      s := s.(width := w, conv := e);
    } else if At(fmt, j) == '*' {
      var w: int := Wrap32(args(k));
      s := s.(width := w, conv := j + 1, args := k + 1);
      if w < 0 {
        s := s.(width := 0 - w, flags := f.(left := true));
      }
    }
  }

  method ReadPrecision(fmt: string, t: Spec, args: Args) returns (s: Spec)
    requires t.conv <= |fmt|
    ensures s == ParsePrecision(fmt, t, args)
  {
    s := t;
    if At(fmt, s.conv) == '.' {
      var p, e, a := -1, s.conv + 1, s.args;
      if IsDigit(At(fmt, e)) {
        p, e := ReadInt(fmt, e);
      } else if At(fmt, e) == '*' {
        p, e, a := Wrap32(args(a)), e + 1, a + 1;
      }
      s := s.(precision := Max(p, 0), conv := e, args := a);
    }
  }

  /** Everything between a '%' and its conversion character. */
  method ReadSpec(fmt: string, i: nat, k: nat, args: Args) returns (s: Spec)
    requires i < |fmt|
    ensures s == Parse(fmt, i, k, args)
  {
    var f, j := ReadFlags(fmt, i + 1);
    s := ReadWidth(fmt, j, f, k, args);
    s := ReadPrecision(fmt, s, args);
    if At(fmt, s.conv) == 'h' || At(fmt, s.conv) == 'l' {
      s := s.(short := At(fmt, s.conv) == 'h', conv := s.conv + 1);
    }
  }

  /** The copy of a string's first len characters. */
  method PutText(buf: array<char>, str: nat, end: nat, t: string, len: nat, ghost b: seq<char>, ghost done: string)
    returns (next: nat)
    requires end < buf.Length && Holds(buf[..], b, done, str, end) && len <= |t|
    modifies buf
    ensures Holds(buf[..], b, done + t[..len], next, end)
  {
    next := str;
    var i := 0;
    assert done + t[..0] == done;
    while i < len
      invariant 0 <= i <= len && Holds(buf[..], b, done + t[..i], next, end)
    {
      assert done + t[..i + 1] == done + t[..i] + [t[i]];
      next := Put(buf, next, end, t[i], b, done + t[..i]);
      i := i + 1;
    }
  }

  /** Padding on one side of a text: what the 'c' and 's' conversions do. */
  method PutPadded(buf: array<char>, str: nat, end: nat, t: string, len: nat, size: int, left: bool,
                   ghost b: seq<char>, ghost done: string) returns (next: nat)
    requires end < buf.Length && Holds(buf[..], b, done, str, end) && len <= |t|
    modifies buf
    ensures Holds(buf[..], b,
                  done + if left then t[..len] + Repeat(' ', size) else Repeat(' ', size) + t[..len], next, end)
  {
    next := str;
    var fieldWidth := size;
    ghost var before := if left then "" else Repeat(' ', size);
    if !left {
      next, fieldWidth := Pad(buf, next, end, ' ', fieldWidth, b, done);
    } else {
      assert done + before == done;
    }
    next := PutText(buf, next, end, t, len, b, done + before);
    next, fieldWidth := Pad(buf, next, end, ' ', fieldWidth, b, done + before + t[..len]);
    ghost var behind := Repeat(' ', if left then size else Spent(size));
    assert done + before + t[..len] + behind
        == done + if left then t[..len] + Repeat(' ', size) else Repeat(' ', size) + t[..len];
  }

  /** The conversions that do not print a number. */
  method PutOther(buf: array<char>, str: nat, end: nat, c: char, s: Spec, args: Args, strings: Strings,
                  ghost b: seq<char>, ghost done: string) returns (next: nat)
    requires end < buf.Length && Holds(buf[..], b, done, str, end) && !IsNumber(c)
    modifies buf
    ensures Holds(buf[..], b, done + OtherText(c, s, args, strings), next, end)
  {
    if c == 'c' {
      var ch := (args(s.args) % 256) as char;
      assert [ch][..1] == [ch];
      next := PutPadded(buf, str, end, [ch], 1, s.width - 1, s.flags.left, b, done);
    } else if c == 's' {
      var p := U32(args(s.args));
      var t := if p == 0 then "(NULL)" else strings(p);
      var len := |t|;
      if s.precision > 0 && len > s.precision {
        len := s.precision;
      }
      assert t[..|t|] == t;
      next := PutPadded(buf, str, end, t, len, s.width - len, s.flags.left, b, done);
    } else {
      next := Put(buf, str, end, '%', b, done);
      if c != '%' && c != NUL {
        assert done + ['%'] + [c] == done + ['%', c];
        next := Put(buf, next, end, c, b, done + ['%']);
      }
    }
  }

  /** Where the last cell is, relative to a buffer at address addr. A size of zero, or one that runs over
      the top of the address space, is taken for no limit at all. */
  function EndIndex(addr: nat, size: nat): (e: nat)
    requires addr < TWO32
    ensures e < TWO32 - addr
  {
    var end := (addr + size - 1) % TWO32;
    if end < addr then TWO32 - 1 - addr else end - addr
  }

  /** A size of at least one that stays inside the address space is honoured; zero is not. */
  lemma EndMeans(addr: nat, size: nat)
    requires addr < TWO32
    ensures 1 <= size <= TWO32 - addr ==> EndIndex(addr, size) == size - 1
    ensures size == 0 ==> EndIndex(addr, size) == TWO32 - 1 - addr
    ensures TWO32 - addr < size < TWO32 ==> EndIndex(addr, size) == TWO32 - 1 - addr
  {
  }

  lemma OneItem(p: Piece, rest: seq<Piece>)
    ensures ItemsOf([p] + rest) == [ItemOf(p)] + ItemsOf(rest)
  {
    assert ([p] + rest)[1..] == rest;
  }

  /** One turn of the loop over the format: the item at i, whose text is behind done when it ends. */
  method PutNext(buf: array<char>, str: nat, end: nat, fmt: string, i: nat, k: nat, args: Args, strings: Strings,
                 ghost b: seq<char>, ghost done: string) returns (next: nat, j: nat, l: nat, ghost it: Item)
    requires end < buf.Length && Holds(buf[..], b, done, str, end) && i < |fmt|
    modifies buf
    ensures Holds(buf[..], b, done + TextAt(it, str, end), next, end)
    ensures i < j <= |fmt|
    ensures ItemsOf(Pieces(fmt, i, k, args, strings)) == [it] + ItemsOf(Pieces(fmt, j, l, args, strings))
  {
    if fmt[i] != '%' {
      next := Put(buf, str, end, fmt[i], b, done);
      j, l, it := i + 1, k, Fixed([fmt[i]]);
      OneItem(Text([fmt[i]]), Pieces(fmt, j, l, args, strings));
    } else {
      var s := ReadSpec(fmt, i, k, args);
      var c := At(fmt, s.conv);
      it := ItemOf(PieceOf(c, s, args, strings));
      if IsNumber(c) {
        next := PrintNumber(buf, str, end, NumberOf(c, s, args), b, done);
      } else {
        next := PutOther(buf, str, end, c, s, args, strings, b, done);
      }
      j, l := Next(fmt, s), ArgsAfter(c, s);
      OneItem(PieceOf(c, s, args, strings), Pieces(fmt, j, l, args, strings));
    }
  }

  lemma EmitNext(done: string, it: Item, rest: seq<Item>, str: nat, end: nat)
    ensures done + Emit([it] + rest, str, end)
            == done + TextAt(it, str, end) + Emit(rest, str + |TextAt(it, str, end)|, end)
  {
    assert ([it] + rest)[1..] == rest;
  }

  /** What has been emitted and what the rest of the format emits make up all. */
  ghost predicate Owed(fmt: string, i: nat, k: nat, args: Args, strings: Strings,
                       done: string, str: nat, end: nat, all: string) {
    done + Emit(ItemsOf(Pieces(fmt, i, k, args, strings)), str, end) == all
  }

  lemma StillOwed(fmt: string, i: nat, k: nat, j: nat, l: nat, args: Args, strings: Strings,
                  done: string, it: Item, str: nat, end: nat, all: string)
    requires ItemsOf(Pieces(fmt, i, k, args, strings)) == [it] + ItemsOf(Pieces(fmt, j, l, args, strings))
    requires Owed(fmt, i, k, args, strings, done, str, end, all)
    ensures Owed(fmt, j, l, args, strings, done + TextAt(it, str, end), str + |TextAt(it, str, end)|, end, all)
  {
    EmitNext(done, it, ItemsOf(Pieces(fmt, j, l, args, strings)), str, end);
  }

  method Turn(buf: array<char>, str: nat, end: nat, fmt: string, i: nat, k: nat, args: Args, strings: Strings,
              ghost b: seq<char>, ghost done: string, ghost all: string)
    returns (next: nat, j: nat, l: nat, ghost more: string)
    requires end < buf.Length && Holds(buf[..], b, done, str, end) && i < |fmt|
    requires Owed(fmt, i, k, args, strings, done, str, end, all)
    modifies buf
    ensures Holds(buf[..], b, more, next, end) && i < j <= |fmt|
    ensures Owed(fmt, j, l, args, strings, more, next, end, all)
  {
    ghost var it;
    next, j, l, it := PutNext(buf, str, end, fmt, i, k, args, strings, b, done);
    more := done + TextAt(it, str, end);
    StillOwed(fmt, i, k, j, l, args, strings, done, it, str, end, all);
  }

  /** The loop over the format. */
  method PrintItems(buf: array<char>, end: nat, fmt: string, args: Args, strings: Strings) returns (str: nat)
    requires end < buf.Length
    modifies buf
    ensures Holds(buf[..], old(buf[..]), Emit(Items(fmt, args, strings), 0, end), str, end)
  {
    var i: nat, k: nat := 0, 0;
    str := 0;
    ghost var b, done, all := buf[..], "", Emit(Items(fmt, args, strings), 0, end);
    assert Blit(b, 0, done, end) == b && done + all == all;
    while i < |fmt|
      invariant i <= |fmt| && Holds(buf[..], b, done, str, end)
      invariant Owed(fmt, i, k, args, strings, done, str, end, all)
      decreases |fmt| - i
    {
      str, i, k, done := Turn(buf, str, end, fmt, i, k, args, strings, b, done, all);
    }
    assert done + "" == done;
  }

  /** rt_vsnprintf, for texts that do not run over the top of the address space. */
  method Vsnprintf(buf: array<char>, addr: nat, size: nat, fmt: string, args: Args, strings: Strings) returns (ret: int)
    requires addr < TWO32 && buf.Length == TWO32 - addr && CString(fmt)
    requires |Emit(Items(fmt, args, strings), 0, EndIndex(addr, size))| < buf.Length
    modifies buf
    ensures buf[..] == Printed(old(buf[..]), Items(fmt, args, strings), EndIndex(addr, size))
    ensures ret == Wrap32(|Emit(Items(fmt, args, strings), 0, EndIndex(addr, size))|)
  {
    var end := EndIndex(addr, size);
    var str := PrintItems(buf, end, fmt, args, strings);
    if str <= end {
      buf[str] := NUL;
    } else {
      buf[end] := NUL;
    }
    ret := Wrap32(str);
  }

  // ----- what the calls promise

  /** A call with size cells leaves the first min(|u|, size - 1) characters of what a call without a limit leaves, a
      zero behind them, and the rest of memory untouched. Its length is that of the unbounded call, and one more for
      each number flagged '0' or '-', with a sign and width to spare, whose sign does not fit; so it is right exactly
      when there is no such number, as when the text fits. */
  lemma BoundedCall(b: seq<char>, addr: nat, size: nat, n: nat, ps: seq<Piece>)
    requires 1 <= size <= |b| == TWO32 - addr && |FullText(ps)| < |b|
    requires n == Min(|FullText(ps)|, size - 1)
    ensures EndIndex(addr, size) == size - 1 && EndIndex(addr, 0) == |b| - 1
    ensures Printed(b, ItemsOf(ps), size - 1)[..n] == Printed(b, ItemsOf(ps), |b| - 1)[..n]
    ensures Printed(b, ItemsOf(ps), size - 1)[n] == NUL && Printed(b, ItemsOf(ps), size - 1)[n + 1..] == b[n + 1..]
    ensures |Emit(ItemsOf(ps), 0, size - 1)| == |FullText(ps)| + Lost(ItemsOf(ps), 0, size - 1)
    ensures |Emit(ItemsOf(ps), 0, size - 1)| == |FullText(ps)|
            <==> AllSignsFit(ps, size)
    ensures |FullText(ps)| < size ==> |Emit(ItemsOf(ps), 0, size - 1)| == |FullText(ps)|
  {
    PiecesSound(ps);
    EndMeans(addr, size);
    EndMeans(addr, 0);
    BoundedIsPrefix(b, ItemsOf(ps), size);
    PrefixOfUnbounded(b, ItemsOf(ps), size, n);
    ReturnedLength(ItemsOf(ps), size);
    NoneLost(ps, size);
  }

  /** Lengths below 2^32 are told apart by the returned word. */
  lemma WrapDistinct(x: nat, y: nat)
    requires x < TWO32 && y < TWO32
    ensures Wrap32(x) == Wrap32(y) <==> x == y
  {
  }

  /** What a bounded call with size cells has left (near) and returned, compared with an unbounded one (far), both on
      memory that held b: the beginning of the text and a zero, and the same length exactly when no sign is lost. */
  ghost predicate Beginning(b: seq<char>, near: seq<char>, far: seq<char>, bounded: int, full: int,
                            ps: seq<Piece>, size: nat)
    requires 1 <= size <= |b| == |near| == |far| && |FullText(ps)| < |b|
  {
    var u := FullText(ps);
    var n := Min(|u|, size - 1);
    && near[..n] == far[..n] && near[n] == NUL && near[n + 1..] == b[n + 1..]
    && far[..|u|] == u && far[|u|] == NUL && far[|u| + 1..] == b[|u| + 1..]
    && full == Wrap32(|u|)
    && (bounded == full <==> AllSignsFit(ps, size))
  }

  /** The length that a call without a limit returns. */
  lemma FitsUnbounded(ps: seq<Piece>, room: nat)
    requires |FullText(ps)| < room
    ensures |Emit(ItemsOf(ps), 0, room - 1)| == |FullText(ps)|
  {
    PiecesSound(ps);
    ReturnedLength(ItemsOf(ps), room);
  }

  /** A size of zero is no limit: the whole text and its zero are stored, however little room there is. */
  lemma SizeZeroIsUnbounded(b: seq<char>, addr: nat, ps: seq<Piece>)
    requires 1 <= |b| == TWO32 - addr && |FullText(ps)| < |b|
    ensures EndIndex(addr, 0) == |b| - 1
    ensures var u, r := FullText(ps), Printed(b, ItemsOf(ps), |b| - 1);
            r[..|u|] == u && r[|u|] == NUL && r[|u| + 1..] == b[|u| + 1..]
  {
    PiecesSound(ps);
    EndMeans(addr, 0);
    UnboundedPrints(b, ItemsOf(ps));
  }

  /** Two calls on memory that holds b, one with the given size and one with zero: the buffers and the results that the
      contract of Vsnprintf gives them, with the ends and lengths worked out. */
  lemma TwoCalls(b: seq<char>, addr: nat, size: nat, ps: seq<Piece>, bounded: int, full: int)
    requires 1 <= size <= |b| == TWO32 - addr && |FullText(ps)| < |b|
    requires |Emit(ItemsOf(ps), 0, size - 1)| < |b|
    requires bounded == Wrap32(|Emit(ItemsOf(ps), 0, size - 1)|) && full == Wrap32(|FullText(ps)|)
    ensures EndIndex(addr, size) == size - 1 && EndIndex(addr, 0) == |b| - 1
    ensures Beginning(b, Printed(b, ItemsOf(ps), size - 1), Printed(b, ItemsOf(ps), |b| - 1), bounded, full, ps, size)
  {
    BoundedCall(b, addr, size, Min(|FullText(ps)|, size - 1), ps);
    SizeZeroIsUnbounded(b, addr, ps);
    WrapDistinct(|FullText(ps)|, |Emit(ItemsOf(ps), 0, size - 1)|);
  }

  lemma ParsedExample(args: Args, strings: Strings)
    requires args(0) == -1
    ensures Pieces("a%-5d", 0, 0, args, strings)
            == [Text("a")] + ([Numeric(Number(-1, 10, 5, -1, PLAIN.(left := true, sign := true)))] + [])
  {
    var fmt := "a%-5d";
    assert ParseFlags(fmt, 2, PLAIN) == (PLAIN.(left := true), 3);
    assert SkipAtoi(fmt, 3, 0) == (5, 4);
    assert Parse(fmt, 1, 0, args) == Spec(PLAIN.(left := true), 5, -1, false, 4, 0);
  }

  lemma ExampleLengths(n: Number)
    requires n == Number(-1, 10, 5, -1, PLAIN.(left := true, sign := true))
    ensures NumberItem(n).offset == 0 && |NumberItem(n).full| == 5 && |NumberItem(n).cut| == 6
  {
    MagnitudeMeans(-1, n.flags);
    assert DigitsOf(Magnitude(-1, n.flags), 10, false) == "1" && SignText(-1, n.flags) == "-";
    NumTextLength(n.num, n.base, n.width, n.precision, n.flags);
    UnstoredSign(n.num, n.base, n.width, n.precision, n.flags);
  }

  lemma ExampleText(a: Item, it: Item)
    requires a == Fixed("a") && it.offset == 0 && |it.full| == 5 && |it.cut| == 6
    ensures |Emit([a] + ([it] + []), 0, 0)| == 7 && |EmitAll([a] + ([it] + []))| == 6
  {
    EmitNext("", a, [it] + [], 0, 0);
    EmitNext("a", it, [], 1, 0);
    assert ([a] + ([it] + []))[1..] == [it] && [it][1..] == [];
    assert EmitAll([it]) == it.full + EmitAll([]);
  }

  /** One cell, the format a%-5d and the number -1: the length is 7, and that of the unbounded call is 6. */
  lemma LengthTooLarge(args: Args, strings: Strings)
    requires args(0) == -1
    ensures var items := Items("a%-5d", args, strings);
            |Emit(items, 0, 0)| == 7 && |EmitAll(items)| == 6
  {
    var n := Number(-1, 10, 5, -1, PLAIN.(left := true, sign := true));
    var it := NumberItem(n);
    ParsedExample(args, strings);
    OneItem(Text("a"), [Numeric(n)] + []);
    OneItem(Numeric(n), []);
    assert ItemsOf([]) == [];
    ExampleLengths(n);
    ExampleText(Fixed("a"), it);
  }
}
