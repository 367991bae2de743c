/** Format strings: how a directive is parsed, what it emits, and the whole text of a format. */
module FormatText {
  import opened FixedPoint
  import opened NumberText
  import opened Emission

  /** The character at i of a NUL-terminated string. */
  function At(fmt: string, i: nat): char {
    if i < |fmt| then fmt[i] else NUL
  }

  predicate IsDigit(c: char) {
    '0' <= c <= '9'
  }

  /** skip_atoi: the decimal number at i, on top of acc, and the index behind it. */
  function SkipAtoi(fmt: string, i: nat, acc: int): (r: (int, nat))
    ensures i <= r.1 && (i <= |fmt| ==> r.1 <= |fmt|)
    decreases |fmt| - i
  {
    if i < |fmt| && IsDigit(fmt[i]) then SkipAtoi(fmt, i + 1, acc * 10 + (fmt[i] - '0') as int) else (acc, i)
  }

  const PLAIN := Flags(false, false, false, false, false, false)

  /** The flag characters from i on; '#' is accepted and has no effect. */
  function ParseFlags(fmt: string, i: nat, f: Flags): (r: (Flags, nat))
    ensures i <= r.1 && (i <= |fmt| ==> r.1 <= |fmt|)
    decreases |fmt| - i
  {
    if i >= |fmt| then (f, i)
    else if fmt[i] == '-' then ParseFlags(fmt, i + 1, f.(left := true))
    else if fmt[i] == '+' then ParseFlags(fmt, i + 1, f.(plus := true))
    else if fmt[i] == ' ' then ParseFlags(fmt, i + 1, f.(space := true))
    else if fmt[i] == '#' then ParseFlags(fmt, i + 1, f)
    else if fmt[i] == '0' then ParseFlags(fmt, i + 1, f.(zeropad := true))
    else (f, i)
  }

  /** A parsed directive: conv is the index of its conversion character, args the number of arguments used so far. */
  datatype Spec = Spec(flags: Flags, width: int, precision: int, short: bool, conv: nat, args: nat)

  /** The arguments, as the words that va_arg delivers one after the other. */
  type Args = nat -> int

  function ParseWidth(fmt: string, i: nat, f: Flags, k: nat, args: Args): (s: Spec)
    ensures i <= s.conv && (i <= |fmt| ==> s.conv <= |fmt|)
  {
    if IsDigit(At(fmt, i)) then
      var (w, j) := SkipAtoi(fmt, i, 0);
      Spec(f, w, -1, false, j, k)
    else if At(fmt, i) == '*' then
      var w := Wrap32(args(k));
      if w < 0 then Spec(f.(left := true), 0 - w, -1, false, i + 1, k + 1) else Spec(f, w, -1, false, i + 1, k + 1)
    else Spec(f, -1, -1, false, i, k)
  }

  /** The optional precision; a point alone, or a negative argument, means zero. */
  function ParsePrecision(fmt: string, s: Spec, args: Args): (r: Spec)
    ensures s.conv <= r.conv && (s.conv <= |fmt| ==> r.conv <= |fmt|)
  {
    var i := s.conv;
    if At(fmt, i) != '.' then s
    else if IsDigit(At(fmt, i + 1)) then
      var (p, j) := SkipAtoi(fmt, i + 1, 0);
      s.(precision := Max(p, 0), conv := j)
    else if At(fmt, i + 1) == '*' then
      s.(precision := Max(Wrap32(args(s.args)), 0), conv := i + 2, args := s.args + 1)
    else s.(precision := 0, conv := i + 1)
  }

  function ParseQualifier(fmt: string, s: Spec): (r: Spec)
    ensures s.conv <= r.conv && (s.conv <= |fmt| ==> r.conv <= |fmt|)
  {
    if At(fmt, s.conv) == 'h' then s.(short := true, conv := s.conv + 1)
    else if At(fmt, s.conv) == 'l' then s.(conv := s.conv + 1)
    else s
  }

  /** The directive whose '%' is at i. */
  function Parse(fmt: string, i: nat, k: nat, args: Args): (s: Spec)
    requires i < |fmt|
    ensures i < s.conv <= |fmt|
  {
    var (f, j) := ParseFlags(fmt, i + 1, PLAIN);
    ParseQualifier(fmt, ParsePrecision(fmt, ParseWidth(fmt, j, f, k, args), args))
  }

  // ----- conversions

  datatype Number = Number(num: int, base: nat, width: int, precision: int, flags: Flags)

  predicate IsNumber(c: char) {
    c in {'p', 'o', 'X', 'x', 'd', 'i', 'u'}
  }

  /** The number that a numeric directive with conversion c prints. */
  function NumberOf(c: char, s: Spec, args: Args): Number {
    var word := U32(args(s.args));
    if c == 'p' then
      if s.width == -1 then Number(Wrap32(word), 16, 8, s.precision, s.flags.(zeropad := true))
      else Number(Wrap32(word), 16, s.width, s.precision, s.flags)
    else
      var sign := c == 'd' || c == 'i';
      var f := if c == 'X' then s.flags.(large := true) else if sign then s.flags.(sign := true) else s.flags;
      var base := if c == 'o' then 8 else if c == 'x' || c == 'X' then 16 else 10;
      var num := if !s.short then word else if sign then U32(Wrap16(word)) else word % TWO16;
      Number(Wrap32(num), base, s.width, s.precision, f)
  }

  function CharText(c: char, width: int, left: bool): string {
    if left then [c] + Repeat(' ', width - 1) else Repeat(' ', width - 1) + [c]
  }

  /** A string, cut at a positive precision and padded to the width. */
  function StringText(s: string, width: int, precision: int, left: bool): string {
    var t := if 0 < precision < |s| then s[..precision] else s;
    if left then t + Repeat(' ', width - |t|) else Repeat(' ', width - |t|) + t
  }

  /** The strings that pointers lead to. */
  type Strings = int -> string

  /** What a directive that is not a number emits. An unknown one is copied; at the end of the format only '%'. */
  function OtherText(c: char, s: Spec, args: Args, strings: Strings): string {
    if c == 'c' then CharText((args(s.args) % 256) as char, s.width, s.flags.left)
    else if c == 's' then
      var p := U32(args(s.args));
      StringText(if p == 0 then "(NULL)" else strings(p), s.width, s.precision, s.flags.left)
    else if c == '%' || c == NUL then "%"
    else ['%', c]
  }

  /** The arguments used once the directive has been carried out. */
  function ArgsAfter(c: char, s: Spec): nat {
    if IsNumber(c) || c == 'c' || c == 's' then s.args + 1 else s.args
  }

  /** Where the scan goes on: behind the conversion character, or at the end of the format. */
  function Next(fmt: string, s: Spec): nat {
    if At(fmt, s.conv) == NUL then s.conv else s.conv + 1
  }

  /** What a stretch of a format stands for: a fixed text or a number to be formatted. */
  datatype Piece = Text(text: string) | Numeric(n: Number)

  function PieceOf(c: char, s: Spec, args: Args, strings: Strings): Piece {
    if IsNumber(c) then Numeric(NumberOf(c, s, args)) else Text(OtherText(c, s, args, strings))
  }

  /** The pieces of the format from index i on, with the arguments from k on. */
  function Pieces(fmt: string, i: nat, k: nat, args: Args, strings: Strings): seq<Piece>
    decreases |fmt| - i
  {
    if i >= |fmt| then []
    else if fmt[i] != '%' then [Text([fmt[i]])] + Pieces(fmt, i + 1, k, args, strings)
    else
      var s := Parse(fmt, i, k, args);
      var c := At(fmt, s.conv);
      [PieceOf(c, s, args, strings)] + Pieces(fmt, Next(fmt, s), ArgsAfter(c, s), args, strings)
  }

  function NumberItem(n: Number): Item {
    Item(NumText(n.num, n.base, n.width, n.precision, n.flags, true),
         NumText(n.num, n.base, n.width, n.precision, n.flags, false),
         SignOffset(n.num, n.base, n.width, n.precision, n.flags))
  }

  function ItemOf(p: Piece): Item {
    match p
    case Text(t) => Fixed(t)
    case Numeric(n) => NumberItem(n)
  }

  function ItemsOf(ps: seq<Piece>): (r: seq<Item>)
    ensures |r| == |ps|
  {
    if ps == [] then [] else [ItemOf(ps[0])] + ItemsOf(ps[1..])
  }

  lemma {:induction false} ItemsAt(ps: seq<Piece>, i: nat)
    requires i < |ps|
    ensures ItemsOf(ps)[i] == ItemOf(ps[i]) && ItemsOf(ps)[..i] == ItemsOf(ps[..i])
  {
    if i > 0 {
      ItemsAt(ps[1..], i - 1);
      assert ps[..i][1..] == ps[1..][..i - 1];
    }
  }

  function Items(fmt: string, args: Args, strings: Strings): seq<Item> {
    ItemsOf(Pieces(fmt, 0, 0, args, strings))
  }

  predicate Longer(n: Number) {
    Lengthened(n.num, n.base, n.width, n.precision, n.flags)
  }

  /** A number's two texts agree up to the sign, and the second is longer exactly when width would be left
      to pad behind the sign, which then comes first. */
  lemma NumberItemSound(n: Number)
    ensures Sound(NumberItem(n))
    ensures |NumberItem(n).cut| > |NumberItem(n).full| <==> Longer(n)
    ensures Longer(n) ==> NumberItem(n).offset == 0
  {
    UnstoredSign(n.num, n.base, n.width, n.precision, n.flags);
  }

  lemma PieceSound(p: Piece)
    ensures Sound(ItemOf(p))
    ensures |ItemOf(p).cut| > |ItemOf(p).full| <==> p.Numeric? && Longer(p.n)
    ensures p.Numeric? && Longer(p.n) ==> ItemOf(p).offset == 0
  {
    if p.Numeric? {
      NumberItemSound(p.n);
    }
  }

  /** Every piece has two texts that agree up to its sign, and exactly the numbers that Longer names become longer
      without it. */
  lemma PiecesSound(ps: seq<Piece>)
    ensures AllSound(ItemsOf(ps))
    ensures forall i :: 0 <= i < |ps| ==>
              (|ItemsOf(ps)[i].cut| > |ItemsOf(ps)[i].full| <==> ps[i].Numeric? && Longer(ps[i].n))
  {
    forall i | 0 <= i < |ps|
      ensures Sound(ItemsOf(ps)[i])
      ensures |ItemsOf(ps)[i].cut| > |ItemsOf(ps)[i].full| <==> ps[i].Numeric? && Longer(ps[i].n)
    {
      ItemsAt(ps, i);
      PieceSound(ps[i]);
    }
  }

  // ----- the signs that a bounded call loses

  /** The text of the pieces when nothing limits it. */
  function FullText(ps: seq<Piece>): string {
    EmitAll(ItemsOf(ps))
  }

  /** Piece i is a number flagged '0' or '-' with a sign and width to spare, and the full text in front of it leaves no
      room for its sign in size cells. */
  predicate SignLost(ps: seq<Piece>, i: nat, size: nat)
    requires i < |ps|
  {
    ps[i].Numeric? && Longer(ps[i].n) && |FullText(ps[..i])| >= size
  }

  /** There is no such piece. */
  predicate AllSignsFit(ps: seq<Piece>, size: nat) {
    forall i :: 0 <= i < |ps| ==> !SignLost(ps, i, size)
  }

  lemma LostItem(ps: seq<Piece>, i: nat, size: nat)
    requires i < |ps| && size >= 1
    ensures LostAt(ItemsOf(ps), i, 0, size - 1) <==> SignLost(ps, i, size)
  {
    ItemsAt(ps, i);
    PieceSound(ps[i]);
  }

  /** No sign is lost exactly when no piece is of that kind. */
  lemma NoneLost(ps: seq<Piece>, size: nat)
    requires size >= 1
    ensures Lost(ItemsOf(ps), 0, size - 1) == 0 <==> AllSignsFit(ps, size)
  {
    var items := ItemsOf(ps);
    LostMeans(items, 0, size - 1);
    if Lost(items, 0, size - 1) > 0 {
      var i :| 0 <= i < |items| && LostAt(items, i, 0, size - 1);
      LostItem(ps, i, size);
    } else {
      forall i | 0 <= i < |ps|
        ensures !SignLost(ps, i, size)
      {
        LostItem(ps, i, size);
      }
    }
  }

  predicate CString(fmt: string) {
    NUL !in fmt
  }

  // ----- skip_atoi undoes the decimal digits

  lemma {:induction false} SkipReads(fmt: string, i: nat, acc: int)
    requires i <= |fmt|
    ensures SkipAtoi(fmt, i, acc).0 == ReadDigits(fmt[i..], 10, acc)
    decreases |fmt| - i
  {
    if i < |fmt| && IsDigit(fmt[i]) {
      SkipReads(fmt, i + 1, acc * 10 + (fmt[i] - '0') as int);
      assert fmt[i..][1..] == fmt[i + 1..];
    }
  }

  /** The decimal text of a number, followed by anything but a digit, reads as that number. */
  lemma SkipAtoiRecovers(v: nat, large: bool, rest: string)
    requires rest == "" || !IsDigit(rest[0])
    ensures SkipAtoi(DigitsOf(v, 10, large) + rest, 0, 0).0 == v
  {
    var s := DigitsOf(v, 10, large) + rest;
    SkipReads(s, 0, 0);
    assert s[0..] == s;
    DigitsRead(v, 10, large, rest, 0);
    AppendedToZero(v, 10);
  }
}
