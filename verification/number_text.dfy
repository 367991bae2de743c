/** The text of a formatted number, piece by piece as print_number emits it, and what that text denotes. */
module NumberText {
  import opened FixedPoint

  datatype Flags = Flags(zeropad: bool, sign: bool, plus: bool, space: bool, left: bool, large: bool)

  type Radix = x: int | x == 10 || x == 16 witness 10

  /** The radix that divide really uses: anything but ten is sixteen. */
  function RadixOf(base: nat): Radix {
    if base == 10 then 10 else 16
  }

  /** The two results of divide. */
  function Quotient(m: nat, radix: Radix): nat {
    if radix == 10 then m / 10 else m / 16
  }

  function Last(m: nat, radix: Radix): (d: nat)
    ensures d < radix
  {
    if radix == 10 then m % 10 else m % 16
  }

  lemma DivisionMeans(m: nat, radix: Radix)
    ensures m == Quotient(m, radix) * radix + Last(m, radix)
    ensures m >= radix ==> 0 < Quotient(m, radix) < m
  {
  }

  function DigitChar(d: nat, large: bool): char
    requires d < 16
  {
    if large then "0123456789ABCDEF"[d] else "0123456789abcdef"[d]
  }

  /** The unsigned value whose digits are printed. Negating the most negative number leaves it unchanged. */
  function Magnitude(num: int, f: Flags): nat {
    U32(if f.sign && num < 0 then Wrap32(-num) else num)
  }

  function SignText(num: int, f: Flags): string {
    if !f.sign then ""
    else if num < 0 then "-"
    else if f.plus then "+"
    else if f.space then " "
    else ""
  }

  /** The digits of m, most significant first. */
  function DigitsOf(m: nat, radix: Radix, large: bool): (s: string)
    ensures |s| > 0
  {
    if m < radix then [DigitChar(m, large)]
    else DigitsOf(Quotient(m, radix), radix, large) + [DigitChar(Last(m, radix), large)]
  }

  function Repeat(c: char, n: int): (s: string)
    ensures |s| == (if n > 0 then n else 0) && forall x <- s :: x == c
  {
    if n <= 0 then "" else Repeat(c, n - 1) + [c]
  }

  function Max(a: int, b: int): int {
    if a > b then a else b
  }

  /** The counter of a loop while (size-- > 0) once the loop has ended. */
  function Spent(size: int): int {
    if size > 0 then -1 else size - 1
  }

  /** Zero padding is given up for left alignment. */
  function Zeroed(f: Flags): bool {
    f.zeropad && !f.left
  }

  /** Padding is neither zeros nor on the right, so it comes first. */
  function Leading(f: Flags): bool {
    !Zeroed(f) && !f.left
  }

  /** The leading blanks. */
  function LeadCount(sgn: string, size: int, f: Flags): int {
    if !Leading(f) then 0 else if sgn != "" && size > 0 then size - 1 else size
  }

  /** The width left over after the leading blanks and the sign. The sign counts only when it has been stored. */
  function AfterSign(sgn: string, size: int, f: Flags, stored: bool): int {
    (if Leading(f) then Spent(LeadCount(sgn, size, f)) else size) - (if sgn != "" && stored then 1 else 0)
  }

  /** Everything after the sign. */
  function AfterSignText(digits: string, size: int, precision: int, f: Flags): string {
    (if f.left then "" else Repeat(if Zeroed(f) then '0' else ' ', size))
    + Repeat('0', precision - |digits|)
    + (if precision != 0 then digits else "")
    + Repeat(' ', if f.left then size else Spent(size))
  }

  /** What print_number emits; stored says whether its sign character meets the buffer's end test. */
  function NumText(num: int, base: nat, width: int, precision: int, f: Flags, stored: bool): string {
    var digits, sgn := DigitsOf(Magnitude(num, f), RadixOf(base), f.large), SignText(num, f);
    var size := width - Max(|digits|, precision);
    Repeat(' ', LeadCount(sgn, size, f)) + sgn
    + AfterSignText(digits, AfterSign(sgn, size, f, stored), precision, f)
  }

  /** The number of characters before the sign. */
  function SignOffset(num: int, base: nat, width: int, precision: int, f: Flags): nat {
    var digits, sgn := DigitsOf(Magnitude(num, f), RadixOf(base), f.large), SignText(num, f);
    Max(0, LeadCount(sgn, width - Max(|digits|, precision), f))
  }

  // ----- the length

  /** With the sign stored and the precision not zero, the text has exactly the width asked for, or the sign and
      the digits (or precision) if they need more. */
  lemma NumTextLength(num: int, base: nat, width: int, precision: int, f: Flags)
    requires precision != 0
    ensures var digits := DigitsOf(Magnitude(num, f), RadixOf(base), f.large);
            |NumText(num, base, width, precision, f, true)|
            == Max(width, |SignText(num, f)| + Max(|digits|, precision))
  {
  }

  // ----- the sign that is not stored

  /** A number that shows a sign, is flagged '0' or '-', and has width to spare. */
  predicate Lengthened(num: int, base: nat, width: int, precision: int, f: Flags) {
    var digits := DigitsOf(Magnitude(num, f), RadixOf(base), f.large);
    f.sign && (num < 0 || f.plus || f.space) && (f.zeropad || f.left) && width > Max(|digits|, precision)
  }

  /** A sign past the end costs one character less of the width, so the text is one longer - exactly when
      padding would still have followed the sign. */
  lemma UnstoredSign(num: int, base: nat, width: int, precision: int, f: Flags)
    ensures var digits := DigitsOf(Magnitude(num, f), RadixOf(base), f.large);
            |NumText(num, base, width, precision, f, false)| == |NumText(num, base, width, precision, f, true)|
            + (if Lengthened(num, base, width, precision, f) then 1 else 0)
    ensures var k := SignOffset(num, base, width, precision, f);
            var t, u := NumText(num, base, width, precision, f, false), NumText(num, base, width, precision, f, true);
            k <= |t| && k <= |u| && t[..k] == u[..k]
    ensures SignText(num, f) == "" || Leading(f) ==>
              NumText(num, base, width, precision, f, false) == NumText(num, base, width, precision, f, true)
  {
  }

  // ----- what the text denotes

  /** The value of a digit character; 16 for anything else. */
  function DigitValue(c: char): nat {
    if '0' <= c <= '9' then (c - '0') as int
    else if 'a' <= c <= 'f' then 10 + (c - 'a') as int
    else if 'A' <= c <= 'F' then 10 + (c - 'A') as int
    else 16
  }

  /** A base that numbers are read in. */
  type Base = x: int | x == 8 || x == 10 || x == 16 witness 10

  /** Reads digits from the front of s, on top of the value read so far, up to the first other character. */
  function ReadDigits(s: string, radix: Base, acc: int): int {
    if s == "" || DigitValue(s[0]) >= radix then acc else ReadDigits(s[1..], radix, acc * radix + DigitValue(s[0]))
  }

  /** Reads blanks, an optional sign, and digits. */
  function ReadNumber(s: string, radix: Base): int {
    if s == "" then 0
    else if s[0] == ' ' then ReadNumber(s[1..], radix)
    else if s[0] == '-' then -ReadDigits(s[1..], radix, 0)
    else if s[0] == '+' then ReadDigits(s[1..], radix, 0)
    else ReadDigits(s, radix, 0)
  }

  lemma DigitCharReads(d: nat, large: bool)
    requires d < 16
    ensures DigitValue(DigitChar(d, large)) == d
  {
  }

  function Power(radix: Radix, n: nat): nat {
    if n == 0 then 1 else radix * Power(radix, n - 1)
  }

  lemma ReadOne(c: char, rest: string, radix: Base, acc: int)
    requires DigitValue(c) < radix
    ensures ReadDigits([c] + rest, radix, acc) == ReadDigits(rest, radix, acc * radix + DigitValue(c))
  {
    assert ([c] + rest)[1..] == rest;
  }

  /** The value acc with the digits of m written behind it. */
  function Appended(acc: int, m: nat, radix: Radix): int
  {
    if m < radix then acc * radix + m
    else Appended(acc, Quotient(m, radix), radix) * radix + Last(m, radix)
  }

  lemma {:induction false} AppendedToZero(m: nat, radix: Radix)
    ensures Appended(0, m, radix) == m
    decreases m
  {
    if m >= radix {
      var q, d := Quotient(m, radix), Last(m, radix);
      DivisionMeans(m, radix);
      AppendedToZero(q, radix);
    }
  }

  lemma ReadAfter(front: string, d: nat, radix: Radix, large: bool, rest: string, acc: int, v: int)
    requires d < radix
    requires ReadDigits(front + ([DigitChar(d, large)] + rest), radix, acc)
             == ReadDigits([DigitChar(d, large)] + rest, radix, v)
    ensures ReadDigits(front + [DigitChar(d, large)] + rest, radix, acc) == ReadDigits(rest, radix, v * radix + d)
  {
    var c := DigitChar(d, large);
    assert front + [c] + rest == front + ([c] + rest);
    DigitCharReads(d, large);
    ReadOne(c, rest, radix, v);
  }

  /** Reading the digits of m writes them behind what has been read so far. */
  lemma {:induction false} DigitsRead(m: nat, radix: Radix, large: bool, rest: string, acc: int)
    ensures ReadDigits(DigitsOf(m, radix, large) + rest, radix, acc) == ReadDigits(rest, radix, Appended(acc, m, radix))
    decreases m
  {
    if m < radix {
      DigitCharReads(m, large);
      ReadOne(DigitChar(m, large), rest, radix, acc);
    } else {
      var q, d := Quotient(m, radix), Last(m, radix);
      DivisionMeans(m, radix);
      DigitsRead(q, radix, large, [DigitChar(d, large)] + rest, acc);
      ReadAfter(DigitsOf(q, radix, large), d, radix, large, rest, acc, Appended(acc, q, radix));
    }
  }

  lemma {:induction false} ZerosRead(n: int, rest: string, radix: Base)
    ensures ReadDigits(Repeat('0', n) + rest, radix, 0) == ReadDigits(rest, radix, 0)
  {
    if n > 0 {
      ZerosRead(n - 1, "0" + rest, radix);
      assert Repeat('0', n) + rest == Repeat('0', n - 1) + ("0" + rest);
      assert ("0" + rest)[1..] == rest;
    } else {
      assert "" + rest == rest;
    }
  }

  lemma {:induction false} BlanksRead(n: int, rest: string, radix: Base)
    ensures ReadNumber(Repeat(' ', n) + rest, radix) == ReadNumber(rest, radix)
  {
    if n > 0 {
      BlanksRead(n - 1, " " + rest, radix);
      assert Repeat(' ', n) + rest == Repeat(' ', n - 1) + (" " + rest);
      assert (" " + rest)[1..] == rest;
    } else {
      assert "" + rest == rest;
    }
  }

  /** The digits are at most ten in base ten and at most eight in base sixteen, so the sixteen cells suffice. */
  lemma {:induction false} DigitCount(m: nat, radix: Radix, large: bool, n: nat)
    requires 1 <= n && m < Power(radix, n)
    ensures |DigitsOf(m, radix, large)| <= n
    decreases m
  {
    if m >= radix {
      assert n > 1 by { assert Power(radix, 1) == radix; }
      DivisionMeans(m, radix);
      DigitCount(Quotient(m, radix), radix, large, n - 1);
    }
  }

  lemma AfterSignParts(digits: string, size: int, precision: int, f: Flags)
    requires precision != 0 && (Leading(f) ==> size <= 0)
    ensures AfterSignText(digits, size, precision, f) == Repeat('0', if Zeroed(f) then size else 0)
            + (Repeat('0', precision - |digits|) + (digits + Repeat(' ', if f.left then size else Spent(size))))
  {
  }

  lemma BlankStops(c: int, radix: Base, acc: int)
    ensures ReadDigits(Repeat(' ', c), radix, acc) == acc
  {
    var trail := Repeat(' ', c);
    assert trail != "" ==> trail[0] in trail && trail[0] == ' ';
  }

  lemma PaddedDigitsRead(m: nat, radix: Radix, large: bool, a: int, b: int, c: int)
    ensures ReadDigits(Repeat('0', a) + (Repeat('0', b) + (DigitsOf(m, radix, large) + Repeat(' ', c))), radix, 0) == m
  {
    var trail := Repeat(' ', c);
    var digits := DigitsOf(m, radix, large) + trail;
    ZerosRead(a, Repeat('0', b) + digits, radix);
    ZerosRead(b, digits, radix);
    DigitsRead(m, radix, large, trail, 0);
    AppendedToZero(m, radix);
    BlankStops(c, radix, m);
  }

  /** The value of the digits after the sign, whatever the padding. */
  lemma AfterSignReads(m: nat, radix: Radix, large: bool, size: int, precision: int, f: Flags)
    requires precision != 0 && (Leading(f) ==> size <= 0)
    ensures ReadDigits(AfterSignText(DigitsOf(m, radix, large), size, precision, f), radix, 0) == m
  {
    var digits := DigitsOf(m, radix, large);
    AfterSignParts(digits, size, precision, f);
    PaddedDigitsRead(m, radix, large, if Zeroed(f) then size else 0, precision - |digits|,
                     if f.left then size else Spent(size));
  }

  lemma {:induction false} FirstDigit(m: nat, radix: Radix, large: bool)
    ensures DigitValue(DigitsOf(m, radix, large)[0]) < 16
    decreases m
  {
    if m < radix {
      DigitCharReads(m, large);
    } else {
      FirstDigit(Quotient(m, radix), radix, large);
    }
  }

  /** The text after the sign begins with a digit. */
  lemma AfterSignStarts(m: nat, radix: Radix, large: bool, size: int, precision: int, f: Flags)
    requires precision != 0 && (Leading(f) ==> size <= 0)
    ensures var t := AfterSignText(DigitsOf(m, radix, large), size, precision, f);
            t != "" && DigitValue(t[0]) < 16
  {
    var digits := DigitsOf(m, radix, large);
    FirstDigit(m, radix, large);
    var zeros := Repeat('0', precision - |digits|);
    var mid := if f.left then "" else Repeat(if Zeroed(f) then '0' else ' ', size);
    assert mid != "" ==> mid[0] in mid && mid[0] == '0';
    assert zeros != "" ==> zeros[0] in zeros && zeros[0] == '0';
  }

  lemma SignedReads(sgn: string, t: string, radix: Base)
    requires sgn in {"", "-", "+", " "} && t != "" && DigitValue(t[0]) < 16
    ensures ReadNumber(sgn + t, radix) == if sgn == "-" then 0 - ReadDigits(t, radix, 0) else ReadDigits(t, radix, 0)
  {
    if sgn == "" {
      assert sgn + t == t;
    } else {
      assert (sgn + t)[1..] == t;
    }
  }

  lemma PartsRead(m: nat, radix: Radix, large: bool, sgn: string, size: int, precision: int, f: Flags)
    requires precision != 0 && sgn in {"", "-", "+", " "}
    ensures var r := ReadNumber(Repeat(' ', LeadCount(sgn, size, f)) + sgn
                                + AfterSignText(DigitsOf(m, radix, large), AfterSign(sgn, size, f, true), precision, f),
                                radix);
            r == if sgn == "-" then 0 - m else m
  {
    var k := AfterSign(sgn, size, f, true);
    var t := AfterSignText(DigitsOf(m, radix, large), k, precision, f);
    var blanks := Repeat(' ', LeadCount(sgn, size, f));
    assert blanks + sgn + t == blanks + (sgn + t);
    BlanksRead(LeadCount(sgn, size, f), sgn + t, radix);
    AfterSignStarts(m, radix, large, k, precision, f);
    SignedReads(sgn, t, radix);
    AfterSignReads(m, radix, large, k, precision, f);
  }

  lemma MagnitudeMeans(num: Q31, f: Flags)
    ensures Magnitude(num, f) == if !f.sign then U32(num) else if num < 0 then 0 - num else num
  {
  }

  /** Reading the text of a number gives the number: signed for a signed conversion, the most negative
      value included, and unsigned otherwise. */
  lemma NumTextDenotes(num: Q31, base: nat, width: int, precision: int, f: Flags)
    requires precision != 0
    ensures ReadNumber(NumText(num, base, width, precision, f, true), RadixOf(base)) == if f.sign then num else U32(num)
  {
    var digits := DigitsOf(Magnitude(num, f), RadixOf(base), f.large);
    var size := width - Max(|digits|, precision);
    PartsRead(Magnitude(num, f), RadixOf(base), f.large, SignText(num, f), size, precision, f);
    MagnitudeMeans(num, f);
  }

  // ----- two conversions that do not denote their argument

  lemma BareText(digits: string, k: int, f: Flags)
    requires Leading(f) ==> k <= 0
    ensures AfterSignText(digits, k, 0, f)
            == Repeat(if Zeroed(f) then '0' else ' ', if Zeroed(f) || f.left then k else 0)
  {
  }

  lemma PaddingReads(c: char, n: int, radix: Radix)
    requires c == '0' || c == ' '
    ensures ReadDigits(Repeat(c, n), radix, 0) == 0 && ReadNumber(Repeat(c, n), radix) == 0
  {
    var t := Repeat(c, n);
    assert t + "" == t;
    if c == '0' {
      ZerosRead(n, "", radix);
      assert t != "" ==> t[0] in t && t[0] == '0';
    } else {
      BlankStops(n, radix, 0);
      BlanksRead(n, "", radix);
    }
  }

  lemma SignReadsZero(sgn: string, t: string, radix: Radix)
    requires sgn in {"", "-", "+", " "}
    requires ReadDigits(t, radix, 0) == 0 && ReadNumber(t, radix) == 0
    ensures ReadNumber(sgn + t, radix) == 0
  {
    if sgn == "" {
      assert sgn + t == t;
    } else {
      assert (sgn + t)[1..] == t;
    }
  }

  lemma BlanksAndSign(blanks: int, sgn: string, t: string, radix: Radix)
    requires sgn in {"", "-", "+", " "}
    requires ReadDigits(t, radix, 0) == 0 && ReadNumber(t, radix) == 0
    ensures ReadNumber(Repeat(' ', blanks) + sgn + t, radix) == 0
  {
    var lead := Repeat(' ', blanks);
    assert lead + sgn + t == lead + (sgn + t);
    BlanksRead(blanks, sgn + t, radix);
    SignReadsZero(sgn, t, radix);
  }

  /** A sign and padding alone read as zero. */
  lemma BareReads(digits: string, sgn: string, size: int, f: Flags, radix: Radix)
    requires sgn in {"", "-", "+", " "}
    ensures ReadNumber(Repeat(' ', LeadCount(sgn, size, f)) + sgn
                       + AfterSignText(digits, AfterSign(sgn, size, f, true), 0, f), radix) == 0
  {
    var k := AfterSign(sgn, size, f, true);
    var c, n := if Zeroed(f) then '0' else ' ', if Zeroed(f) || f.left then k else 0;
    BareText(digits, k, f);
    PaddingReads(c, n, radix);
    BlanksAndSign(LeadCount(sgn, size, f), sgn, Repeat(c, n), radix);
  }

  lemma BareNumber(num: Q31, base: nat, width: int, f: Flags)
    ensures ReadNumber(NumText(num, base, width, 0, f, true), RadixOf(base)) == 0
  {
    var digits := DigitsOf(Magnitude(num, f), RadixOf(base), f.large);
    BareReads(digits, SignText(num, f), width - Max(|digits|, 0), f, RadixOf(base));
  }

  /** With a precision of zero no digit is printed, so the text denotes the number exactly when that is zero. */
  lemma PrecisionZeroExactly(num: Q31, base: nat, width: int, f: Flags)
    ensures ReadNumber(NumText(num, base, width, 0, f, true), RadixOf(base)) == (if f.sign then num else U32(num))
            <==> num == 0
  {
    BareNumber(num, base, width, f);
    assert U32(num) == 0 <==> num == 0;
  }

  /** What reading in base eight makes of the base-sixteen digits of m, and whether it gets to their end. */
  function OctalScan(m: nat): (nat, bool) {
    if m < 16 then if m < 8 then (m, true) else (0, false)
    else
      var (v, all) := OctalScan(m / 16);
      if all && m % 16 < 8 then (8 * v + m % 16, true) else (v, false)
  }

  lemma OctalDigit(d: nat, large: bool, rest: string, acc: int)
    requires d < 16
    ensures ReadDigits([DigitChar(d, large)] + rest, 8, acc)
            == if d < 8 then ReadDigits(rest, 8, acc * 8 + d) else acc
  {
    DigitCharReads(d, large);
    if d < 8 {
      ReadOne(DigitChar(d, large), rest, 8, acc);
    }
  }

  lemma {:induction false} OctalScanReads(m: nat, large: bool, rest: string)
    ensures var (v, all) := OctalScan(m);
            ReadDigits(DigitsOf(m, 16, large) + rest, 8, 0) == if all then ReadDigits(rest, 8, v) else v
    decreases m
  {
    if m < 16 {
      OctalDigit(m, large, rest, 0);
    } else {
      var d := DigitChar(m % 16, large);
      OctalScanReads(m / 16, large, [d] + rest);
      assert DigitsOf(m, 16, large) + rest == DigitsOf(m / 16, 16, large) + ([d] + rest);
      OctalDigit(m % 16, large, rest, OctalScan(m / 16).0);
    }
  }

  lemma {:induction false} OctalScanExactly(m: nat)
    ensures OctalScan(m).0 <= m && (OctalScan(m).0 == m <==> m < 8) && (m < 8 ==> OctalScan(m).1)
    decreases m
  {
    if m >= 16 {
      OctalScanExactly(m / 16);
    }
  }

  lemma OctalTextReads(m: nat, large: bool, size: int, precision: int, f: Flags)
    requires precision != 0 && (Leading(f) ==> size <= 0)
    ensures ReadDigits(AfterSignText(DigitsOf(m, 16, large), size, precision, f), 8, 0) == OctalScan(m).0
  {
    var digits, trail := DigitsOf(m, 16, large), Repeat(' ', if f.left then size else Spent(size));
    AfterSignParts(digits, size, precision, f);
    ZerosRead(if Zeroed(f) then size else 0, Repeat('0', precision - |digits|) + (digits + trail), 8);
    ZerosRead(precision - |digits|, digits + trail, 8);
    OctalScanReads(m, large, trail);
    BlankStops(if f.left then size else Spent(size), 8, OctalScan(m).0);
  }

  lemma OctalParts(m: nat, large: bool, size: int, precision: int, f: Flags)
    requires precision != 0
    ensures ReadNumber(Repeat(' ', LeadCount("", size, f)) + ""
                       + AfterSignText(DigitsOf(m, 16, large), AfterSign("", size, f, true), precision, f), 8)
            == OctalScan(m).0
  {
    var k := AfterSign("", size, f, true);
    var lead, t := Repeat(' ', LeadCount("", size, f)), AfterSignText(DigitsOf(m, 16, large), k, precision, f);
    assert lead + "" + t == lead + t;
    BlanksRead(LeadCount("", size, f), t, 8);
    AfterSignStarts(m, 16, large, k, precision, f);
    OctalTextReads(m, large, k, precision, f);
  }

  /** The octal conversion prints in base sixteen, so in base eight its text denotes the argument exactly when
      that is below eight. */
  lemma OctalExactly(num: Q31, width: int, precision: int, f: Flags)
    requires precision != 0 && !f.sign
    ensures ReadNumber(NumText(num, 8, width, precision, f, true), 8) == U32(num) <==> U32(num) < 8
  {
    OctalParts(U32(num), f.large, width - Max(|DigitsOf(U32(num), 16, f.large)|, precision), precision, f);
    OctalScanExactly(U32(num));
  }

  /** The digits of any 32-bit value fit the sixteen cells of the local buffer. */
  lemma CellsSuffice(num: int, base: nat, f: Flags)
    ensures |DigitsOf(Magnitude(num, f), RadixOf(base), f.large)| <= if base == 10 then 10 else 8
  {
    var n := if base == 10 then 10 else 8;
    assert Power(10, 5) == 100000 && Power(16, 4) == 0x1_0000;
    if base == 10 {
      assert Power(10, 10) == 10 * (10 * (10 * (10 * (10 * Power(10, 5)))));
    } else {
      assert Power(16, 8) == 16 * (16 * (16 * (16 * Power(16, 4))));
    }
    DigitCount(Magnitude(num, f), RadixOf(base), f.large, n);
  }
}
