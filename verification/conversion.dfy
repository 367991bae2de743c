/** What each conversion of a format prints, said of the characters that come out. */
module Conversions {
  import Arithmetic
  import Directives
  import opened Emission
  import opened FixedPoint
  import opened FormatText
  import opened NumberText

  // ----- the layout of a number

  /** A sign and what follows it, padded to the width: behind them, with zeros between them, or in front of them. */
  function Layout(sgn: string, core: string, width: int, f: Flags): string {
    var pad := width - |sgn| - |core|;
    if f.left then sgn + core + Repeat(' ', pad)
    else if f.zeropad then sgn + Repeat('0', pad) + core
    else Repeat(' ', pad) + sgn + core
  }

  /** The digits with the zeros that the precision asks for; with a precision of zero there are none. */
  function Core(digits: string, precision: int): string {
    if precision == 0 then "" else Repeat('0', precision - |digits|) + digits
  }

  /** The width that is left to the core: with a precision of zero the room for the digits is lost. */
  function Room(digits: string, width: int, precision: int): int {
    if precision == 0 then width - |digits| else width
  }

  lemma CoreLength(digits: string, width: int, precision: int)
    ensures |Core(digits, precision)| == if precision == 0 then 0 else Max(|digits|, precision)
    ensures Room(digits, width, precision) - |Core(digits, precision)| == width - Max(|digits|, precision)
  {
  }

  lemma AfterSignCore(digits: string, k: int, precision: int, f: Flags)
    ensures AfterSignText(digits, k, precision, f)
            == (if f.left then "" else Repeat(if Zeroed(f) then '0' else ' ', k))
               + Core(digits, precision) + Repeat(' ', if f.left then k else Spent(k))
  {
    var mid := if f.left then "" else Repeat(if Zeroed(f) then '0' else ' ', k);
    assert precision == 0 ==> Repeat('0', precision - |digits|) == "";
    assert mid + Repeat('0', precision - |digits|) + (if precision != 0 then digits else "")
        == mid + Core(digits, precision);
  }

  /** The padding of a text whose core is known, from the width that is left over. */
  lemma PadRight(sgn: string, core: string, c: string)
    ensures "" + sgn + ("" + core + c) == sgn + core + c
    ensures "" + sgn + (c + core + "") == sgn + c + core
    ensures c + sgn + ("" + core + "") == c + sgn + core
  {
  }

  lemma PlacePadding(sgn: string, core: string, size: int, k: int, room: int, f: Flags)
    requires |sgn| <= 1 && k == AfterSign(sgn, size, f, true) && room - |core| == size
    ensures Repeat(' ', LeadCount(sgn, size, f)) + sgn
            + ((if f.left then "" else Repeat(if Zeroed(f) then '0' else ' ', k)) + core
               + Repeat(' ', if f.left then k else Spent(k)))
            == Layout(sgn, core, room, f)
  {
    PadRight(sgn, core, Repeat(' ', if f.left then k else LeadCount(sgn, size, f)));
    PadRight(sgn, core, Repeat('0', k));
  }

  lemma LaidOut(digits: string, sgn: string, width: int, precision: int, f: Flags)
    requires |sgn| <= 1
    ensures var size := width - Max(|digits|, precision);
            Repeat(' ', LeadCount(sgn, size, f)) + sgn
            + AfterSignText(digits, AfterSign(sgn, size, f, true), precision, f)
            == Layout(sgn, Core(digits, precision), Room(digits, width, precision), f)
  {
    var size := width - Max(|digits|, precision);
    var k := AfterSign(sgn, size, f, true);
    CoreLength(digits, width, precision);
    AfterSignCore(digits, k, precision, f);
    PlacePadding(sgn, Core(digits, precision), size, k, Room(digits, width, precision), f);
  }

  /** The characters after the last conversion of n. */
  function TextOf(n: Number): string {
    NumText(n.num, n.base, n.width, n.precision, n.flags, true)
  }

  /** The digits that print_number puts into its local buffer. */
  function Digits(n: Number): string {
    DigitsOf(Magnitude(n.num, n.flags), RadixOf(n.base), n.flags.large)
  }

  /** The whole text of a number, by its sign, for every flag, width and precision: '-' for the negative ones, '+' and
      ' ' if asked for, in this order, and nothing in front of the others; unsigned numbers have no sign. */
  lemma SignMeans(n: Number)
    ensures var core, room, f := Core(Digits(n), n.precision), Room(Digits(n), n.width, n.precision), n.flags;
            && (f.sign && n.num < 0 ==> TextOf(n) == Layout("-", core, room, f))
            && (f.sign && n.num >= 0 && f.plus ==> TextOf(n) == Layout("+", core, room, f))
            && (f.sign && n.num >= 0 && !f.plus && f.space ==> TextOf(n) == Layout(" ", core, room, f))
            && (!f.sign || (n.num >= 0 && !f.plus && !f.space) ==> TextOf(n) == Layout("", core, room, f))
  {
    LaidOut(Digits(n), SignText(n.num, n.flags), n.width, n.precision, n.flags);
  }

  /** A hexadecimal digit of the case that large asks for. */
  predicate IsDigitOf(c: char, large: bool) {
    '0' <= c <= '9' || (if large then 'A' <= c <= 'F' else 'a' <= c <= 'f')
  }

  lemma DigitHasCase(d: nat, large: bool)
    requires d < 16
    ensures IsDigitOf(DigitChar(d, large), large)
  {
  }

  lemma {:induction false} DigitsHaveCase(m: nat, radix: Radix, large: bool)
    ensures forall c <- DigitsOf(m, radix, large) :: IsDigitOf(c, large)
    decreases m
  {
    DigitHasCase(if m < radix then m else Last(m, radix), large);
    if m >= radix {
      DigitsHaveCase(Quotient(m, radix), radix, large);
    }
  }

  lemma LayoutChars(sgn: string, core: string, width: int, f: Flags, c: char)
    requires c in Layout(sgn, core, width, f)
    ensures c in sgn || c in core || c == ' ' || c == '0'
  {
  }

  lemma SignInLayout(sgn: string, core: string, width: int, f: Flags, c: char)
    requires c in sgn
    ensures c in Layout(sgn, core, width, f)
  {
    var pad := width - |sgn| - |core|;
    assert c in sgn + core && c in sgn + Repeat('0', pad) + core && c in Repeat(' ', pad) + sgn;
  }

  lemma CoreHasCase(n: Number)
    ensures forall c <- Core(Digits(n), n.precision) :: IsDigitOf(c, n.flags.large)
  {
    DigitsHaveCase(Magnitude(n.num, n.flags), RadixOf(n.base), n.flags.large);
  }

  /** What can be seen of sign and case: a '-' shows a negative number, a '+' a number that is not negative and for
      which it was asked for; letters are of one case only. */
  lemma SignAndCase(n: Number)
    ensures '-' in TextOf(n) <==> n.flags.sign && n.num < 0
    ensures '+' in TextOf(n) <==> n.flags.sign && n.num >= 0 && n.flags.plus
    ensures forall c <- TextOf(n) :: IsDigitOf(c, n.flags.large) || c in {' ', '-', '+'}
  {
    var core, room := Core(Digits(n), n.precision), Room(Digits(n), n.width, n.precision);
    var sgn := if !n.flags.sign then "" else if n.num < 0 then "-" else if n.flags.plus then "+"
               else if n.flags.space then " " else "";
    SignMeans(n);
    CoreHasCase(n);
    assert TextOf(n) == Layout(sgn, core, room, n.flags);
    forall c | c in TextOf(n)
      ensures c in sgn || IsDigitOf(c, n.flags.large) || c == ' '
    {
      LayoutChars(sgn, core, room, n.flags, c);
    }
    if sgn != "" {
      SignInLayout(sgn, core, room, n.flags, sgn[0]);
    }
  }

  lemma LayoutFits(sgn: string, core: string, width: int, f: Flags)
    requires width <= |core|
    ensures Layout(sgn, core, width, f) == sgn + core
  {
  }

  lemma CoreBegins(n: Number, core: string)
    requires core == Core(Digits(n), n.precision) && n.precision != 0
    ensures core != "" && IsDigitOf(core[0], n.flags.large)
  {
    CoreHasCase(n);
    assert core != "" && core[0] in core;
  }

  /** With no sign to show, and no more width than the digits and the precision fill, the text begins with a digit; with
      the space flag and no '+' it begins with a blank, and then a digit. */
  lemma FirstCharacters(n: Number, core: string)
    requires core == Core(Digits(n), n.precision) && n.precision != 0 && n.width <= |core|
    ensures core != "" && IsDigitOf(core[0], n.flags.large)
    ensures !n.flags.sign || (n.num >= 0 && !n.flags.plus && !n.flags.space) ==> TextOf(n) == core
    ensures n.flags.sign && n.num >= 0 && !n.flags.plus && n.flags.space ==> TextOf(n) == " " + core
  {
    SignMeans(n);
    CoreBegins(n, core);
    LayoutFits("", core, n.width, n.flags);
    LayoutFits(" ", core, n.width, n.flags);
    assert "" + core == core;
  }

  // ----- the conversions of numbers

  /** The value that a numeric directive asks for: the next argument as a word, or its low half under 'h', signed for
      the conversions d and i. */
  function Value(c: char, short: bool, word: int): int {
    if c == 'd' || c == 'i' then if short then Wrap16(word) else Wrap32(word)
    else if short && c != 'p' then word % 0x1_0000 else word % 0x1_0000_0000
  }

  /** The casts of an argument see its low bits only. */
  lemma WordCasts(w: int)
    ensures Wrap32(U32(w)) == Wrap32(w) && Wrap16(U32(w)) == Wrap16(w) && U32(w) % TWO16 == w % TWO16
  {
    var q, r: int := w / TWO32, w % TWO32;
    ModShift(r + TWO31, q, TWO32);
    ModShift(r + TWO15, TWO16 * q, TWO16);
    ModShift(r, TWO16 * q, TWO16);
  }

  lemma BackToSigned(v: Q31)
    ensures Wrap32(U32(v)) == v
  {
  }

  lemma BackToWord(v: nat)
    requires v < TWO32
    ensures U32(Wrap32(v)) == v
  {
  }

  lemma NumberKeepsValue(c: char, s: Spec, args: Args)
    requires IsNumber(c) && !s.flags.sign
    ensures var n := NumberOf(c, s, args);
            && Fits(n.num, TWO31) && (n.flags.sign <==> c == 'd' || c == 'i')
            && Value(c, s.short, args(s.args)) == if n.flags.sign then n.num else U32(n.num)
  {
    var word := args(s.args);
    WordCasts(word);
    BackToSigned(Wrap16(word));
    BackToWord(U32(word));
    BackToWord(word % TWO16);
  }

  lemma ModShift(x: int, q: int, d: int)
    requires d > 0
    ensures (x + q * d) % d == x % d
  {
    assert x + q * d == (x / d + q) * d + x % d;
    Arithmetic.Remainder(x + q * d, d, x / d + q, x % d);
  }

  /** The text of a numeric directive, read in the base of its conversion, is the value asked for: base sixteen for x, X
      and p, base ten for d, i and u. */
  lemma ConversionDenotes(c: char, s: Spec, args: Args)
    requires IsNumber(c) && !s.flags.sign && s.precision != 0
    ensures var t := TextOf(NumberOf(c, s, args));
            && (c in {'x', 'X', 'p'} ==> ReadNumber(t, 16) == Value(c, s.short, args(s.args)))
            && (c in {'d', 'i', 'u'} ==> ReadNumber(t, 10) == Value(c, s.short, args(s.args)))
            && (c == 'o' ==> (ReadNumber(t, 8) == Value(c, s.short, args(s.args))
                              <==> Value(c, s.short, args(s.args)) < 8))
  {
    var n := NumberOf(c, s, args);
    NumberKeepsValue(c, s, args);
    NumTextDenotes(n.num, n.base, n.width, n.precision, n.flags);
    if c == 'o' {
      OctalExactly(n.num, n.width, n.precision, n.flags);
    }
  }

  /** The rest of the directive goes to print_number as it was parsed: only d and i show signs, only X has capital
      letters, and a pointer without a width gets eight digits with leading zeros. */
  lemma ConversionKeeps(c: char, s: Spec, args: Args)
    requires IsNumber(c) && !s.flags.sign && !s.flags.large
    ensures var n := NumberOf(c, s, args);
            && n.precision == s.precision && n.flags.left == s.flags.left
            && n.flags.plus == s.flags.plus && n.flags.space == s.flags.space
            && (n.flags.sign <==> c in {'d', 'i'}) && (n.flags.large <==> c == 'X')
            && n.width == (if c == 'p' && s.width == -1 then 8 else s.width)
            && n.flags.zeropad == (s.flags.zeropad || (c == 'p' && s.width == -1))
  {
  }

  /** x and p show no capital letter, and X no small one. */
  lemma ConversionCase(c: char, s: Spec, args: Args)
    requires c in {'x', 'X', 'p'} && !s.flags.sign && !s.flags.large
    ensures var t := TextOf(NumberOf(c, s, args));
            && (c == 'X' ==> forall x <- t :: !('a' <= x <= 'f'))
            && (c != 'X' ==> forall x <- t :: !('A' <= x <= 'F'))
  {
    ConversionKeeps(c, s, args);
    SignAndCase(NumberOf(c, s, args));
  }

  // ----- the other conversions

  /** t is s padded with blanks to the width, on the right if left is set, and otherwise on the left. */
  ghost predicate Padded(t: string, s: string, width: int, left: bool) {
    && |t| == Max(width, |s|)
    && (if left then t[..|s|] == s && (forall i :: |s| <= i < |t| ==> t[i] == ' ')
        else t[|t| - |s|..] == s && (forall i :: 0 <= i < |t| - |s| ==> t[i] == ' '))
  }

  lemma PaddedBoth(s: string, width: int)
    ensures Padded(s + Repeat(' ', width - |s|), s, width, true)
    ensures Padded(Repeat(' ', width - |s|) + s, s, width, false)
  {
    var pad := Repeat(' ', width - |s|);
    forall i | 0 <= i < |pad|
      ensures pad[i] == ' '
    {
      assert pad[i] in pad;
    }
  }

  function StringAt(p: int, strings: Strings): string {
    if p == 0 then "(NULL)" else strings(p)
  }

  /** A string cut at a positive precision. */
  function Cut(s: string, precision: int): string {
    if precision > 0 && |s| > precision then s[..precision] else s
  }

  /** A character is the low byte of its argument; a string is that of its pointer, or "(NULL)", cut at the precision;
      both are padded to the width. A percent sign is doubled to print one, an unknown conversion is copied, and a
      percent sign that ends the format prints itself. */
  lemma OtherMeans(c: char, s: Spec, args: Args, strings: Strings)
    requires !IsNumber(c)
    ensures var t, word := OtherText(c, s, args, strings), args(s.args);
            && (c == 'c' ==> Padded(t, [(word % 256) as char], s.width, s.flags.left))
            && (c == 's' ==> Padded(t, Cut(StringAt(word % 0x1_0000_0000, strings), s.precision),
                                    s.width, s.flags.left))
            && (c == '%' ==> t == "%") && (c == '\0' ==> t == "%")
            && (c !in {'c', 's', '%', '\0'} ==> t == ['%', c])
  {
    var word := args(s.args);
    PaddedBoth([(word % 256) as char], s.width);
    PaddedBoth(Cut(StringAt(word % 0x1_0000_0000, strings), s.precision), s.width);
  }

  // ----- a directive in its format

  /** The arguments that a conversion takes. */
  function Uses(c: char): nat {
    if c in {'c', 's', 'p', 'o', 'X', 'x', 'd', 'i', 'u'} then 1 else 0
  }

  /** The arguments that a directive takes: one for each star, and those of its conversion. */
  function ArgsOf(d: Directives.Directive): nat {
    Directives.Taken(d.width) + Directives.Taken(d.precision) + Uses(d.conv)
  }

  lemma BeginsWithPercent(fmt: string, i: nat, d: Directives.Directive)
    requires Directives.Stands(fmt, i, Directives.DirectiveText(d))
    ensures i < |fmt| && fmt[i] == '%' && |Directives.DirectiveText(d)| > 0
  {
    Directives.FirstChar(fmt, i, Directives.DirectiveText(d));
  }

  lemma MeaningPlace(d: Directives.Directive, conv: nat, k: nat, args: Args)
    ensures Directives.Meaning(d, conv, k, args).conv == conv
    ensures Directives.Meaning(d, conv, k, args).args + Uses(d.conv) == k + ArgsOf(d)
  {
  }

  /** The scan at i, with k arguments used, gives the piece p and goes on at j with l of them used. */
  ghost predicate Gives(fmt: string, i: nat, k: nat, p: Piece, j: nat, l: nat, args: Args, strings: Strings) {
    Pieces(fmt, i, k, args, strings) == [p] + Pieces(fmt, j, l, args, strings)
  }

  lemma PieceOfParsed(fmt: string, i: nat, k: nat, j: nat, l: nat, args: Args, strings: Strings, s: Spec, c: char)
    requires i < |fmt| && fmt[i] == '%' && Parse(fmt, i, k, args) == s && At(fmt, s.conv) == c != NUL
    requires j == s.conv + 1 && l == s.args + Uses(c)
    ensures Gives(fmt, i, k, PieceOf(c, s, args, strings), j, l, args, strings)
  {
    assert Next(fmt, s) == j && ArgsAfter(c, s) == l;
  }

  lemma ParsedPlace(fmt: string, i: nat, j: nat, k: nat, l: nat, args: Args, d: Directives.Directive, s: Spec)
    requires Directives.Writable(d) && Directives.Stands(fmt, i, Directives.DirectiveText(d))
    requires j == i + |Directives.DirectiveText(d)| && j > 0 && l == k + ArgsOf(d)
    requires s == Directives.Meaning(d, j - 1, k, args)
    ensures i < |fmt| && fmt[i] == '%' && Parse(fmt, i, k, args) == s && At(fmt, s.conv) == d.conv != NUL
    ensures j == s.conv + 1 && l == s.args + Uses(d.conv)
  {
    Directives.ParseMeans(fmt, i, k, args, d);
    BeginsWithPercent(fmt, i, d);
    MeaningPlace(d, j - 1, k, args);
  }

  /** Wherever a directive stands, it gives one piece, made from the arguments behind those used so far; the scan goes
      on behind it, at j, with the next argument. */
  lemma DirectivePiece(fmt: string, i: nat, j: nat, k: nat, l: nat, args: Args, strings: Strings,
                       d: Directives.Directive, s: Spec, p: Piece)
    requires Directives.Writable(d) && Directives.Stands(fmt, i, Directives.DirectiveText(d))
    requires j == i + |Directives.DirectiveText(d)| && j > 0 && l == k + ArgsOf(d)
    requires s == Directives.Meaning(d, j - 1, k, args) && p == PieceOf(d.conv, s, args, strings)
    ensures Gives(fmt, i, k, p, j, l, args, strings)
  {
    ParsedPlace(fmt, i, j, k, l, args, d, s);
    PieceOfParsed(fmt, i, k, j, l, args, strings, s, d.conv);
  }

  /** What a numeric directive prints, read in the base of its conversion, is the value of the argument behind those
      of its stars, for every flag, width, precision but zero, and qualifier. */
  lemma DirectiveDenotes(d: Directives.Directive, s: Spec, conv: nat, k: nat, args: Args, strings: Strings,
                         v: int, t: string)
    requires IsNumber(d.conv) && s == Directives.Meaning(d, conv, k, args) && s.precision != 0
    requires v == Value(d.conv, d.qualifier == "h", args(k + Directives.Taken(d.width) + Directives.Taken(d.precision)))
    requires t == ItemOf(PieceOf(d.conv, s, args, strings)).full
    ensures d.conv in {'x', 'X', 'p'} ==> ReadNumber(t, 16) == v
    ensures d.conv in {'d', 'i', 'u'} ==> ReadNumber(t, 10) == v
    ensures d.conv == 'o' ==> (ReadNumber(t, 8) == v <==> v < 8)
  {
    ConversionDenotes(d.conv, s, args);
  }

  /** A percent sign that ends the format prints itself. */
  lemma LonePercent(fmt: string, i: nat, k: nat, args: Args, strings: Strings)
    requires i + 1 == |fmt| && fmt[i] == '%'
    ensures Pieces(fmt, i, k, args, strings) == [Text("%")]
  {
    assert Parse(fmt, i, k, args).conv == i + 1;
  }

  /** A character that is no percent sign stands for itself. */
  lemma PlainPiece(fmt: string, i: nat, k: nat, args: Args, strings: Strings)
    requires i < |fmt| && fmt[i] != '%'
    ensures Pieces(fmt, i, k, args, strings) == [Text([fmt[i]])] + Pieces(fmt, i + 1, k, args, strings)
  {
  }

  /** The full text is the texts of the pieces, one after the other. */
  lemma OneMorePiece(p: Piece, rest: seq<Piece>)
    ensures FullText([p] + rest) == ItemOf(p).full + FullText(rest)
  {
    assert ([p] + rest)[1..] == rest;
  }

  /** A format without percent signs prints itself. */
  lemma {:induction false} PlainFormat(fmt: string, i: nat, k: nat, args: Args, strings: Strings)
    requires i <= |fmt| && '%' !in fmt
    ensures FullText(Pieces(fmt, i, k, args, strings)) == fmt[i..]
    decreases |fmt| - i
  {
    if i < |fmt| {
      PlainFormat(fmt, i + 1, k, args, strings);
      OneMorePiece(Text([fmt[i]]), Pieces(fmt, i + 1, k, args, strings));
    }
  }
}
