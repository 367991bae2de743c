/** Directives as their writer means them, and the parser that gets the meaning back. */
module Directives {
  import FixedPoint
  import opened FormatText
  import opened NumberText

  /** A width or precision as written: nothing, a number, or a star for the next argument. */
  datatype Field = Absent | Given(value: nat) | Star

  /** A directive; the precision is behind a point. */
  datatype Directive = Directive(
    flags: string,
    width: Field,
    point: bool,
    precision: Field,
    qualifier: string,
    conv: char)

  function FieldText(w: Field): string {
    match w
    case Absent => ""
    case Given(v) => DigitsOf(v, 10, false)
    case Star => "*"
  }

  function PointText(d: Directive): string {
    if d.point then "." + FieldText(d.precision) else ""
  }

  function DirectiveText(d: Directive): string {
    "%" + d.flags + FieldText(d.width) + PointText(d) + d.qualifier + [d.conv]
  }

  predicate IsFlag(c: char) {
    c in {'-', '+', ' ', '#', '0'}
  }

  /** A character that ends a directive. */
  predicate Ends(c: char) {
    !IsFlag(c) && !IsDigit(c) && c !in {'*', '.', 'h', 'l', '\0'}
  }

  /** The directives that can be written: a width of zero would be read as a flag. */
  ghost predicate Writable(d: Directive) {
    && (forall c <- d.flags :: IsFlag(c))
    && d.width != Given(0)
    && (!d.point ==> d.precision == Absent)
    && d.qualifier in {"", "h", "l"}
    && Ends(d.conv)
  }

  /** The argument at position k, as a signed word. */
  function Argument(args: Args, k: nat): int {
    FixedPoint.Wrap32(args(k))
  }

  function Taken(w: Field): nat {
    if w == Star then 1 else 0
  }

  /** The value of a field: a negative argument counts by its size for a width and as zero for a precision. */
  function FieldValue(w: Field, absent: int, args: Args, k: nat, width: bool): int {
    match w
    case Absent => absent
    case Given(v) => v
    case Star =>
      var a := Argument(args, k);
      if a >= 0 then a else if width then 0 - a else 0
  }

  /** What a directive asks for, given that k arguments have been used and that its conversion character is at conv: '-'
      or a negative width argument puts the text to the left, a missing precision is -1, and a precision is never
      below zero. */
  ghost function Meaning(d: Directive, conv: nat, k: nat, args: Args): Spec {
    var left := '-' in d.flags || (d.width == Star && Argument(args, k) < 0);
    Spec(Flags('0' in d.flags, false, '+' in d.flags, ' ' in d.flags, left, false),
         FieldValue(d.width, -1, args, k, true),
         if d.point then FieldValue(d.precision, 0, args, k + Taken(d.width), false) else -1,
         d.qualifier == "h", conv, k + Taken(d.width) + Taken(d.precision))
  }

  /** t stands at position i of fmt. */
  ghost predicate Stands(fmt: string, i: nat, t: string) {
    i + |t| <= |fmt| && fmt[i..i + |t|] == t
  }

  lemma StandsSplit(fmt: string, i: nat, a: string, b: string)
    requires Stands(fmt, i, a + b)
    ensures Stands(fmt, i, a) && Stands(fmt, i + |a|, b)
    ensures b != "" ==> At(fmt, i + |a|) == b[0]
  {
    var t := a + b;
    assert fmt[i..i + |a|] == fmt[i..i + |t|][..|a|] == a;
    assert fmt[i + |a|..i + |t|] == fmt[i..i + |t|][|a|..] == b;
  }

  lemma FirstChar(fmt: string, i: nat, t: string)
    requires Stands(fmt, i, t) && t != ""
    ensures i < |fmt| && fmt[i] == t[0] && At(fmt, i) == t[0] && t[0] in t
    ensures Stands(fmt, i + 1, t[1..])
  {
    assert t == [t[0]] + t[1..];
    StandsSplit(fmt, i, [t[0]], t[1..]);
    assert fmt[i..i + |t|][0] == fmt[i];
  }

  /** f together with the flags in t. */
  ghost function Flagged(f: Flags, t: string): Flags {
    Flags(f.zeropad || '0' in t, f.sign, f.plus || '+' in t, f.space || ' ' in t, f.left || '-' in t, f.large)
  }

  lemma FlagsJoin(f: Flags, t: string)
    requires t != ""
    ensures Flagged(Flagged(f, [t[0]]), t[1..]) == Flagged(f, t)
  {
    assert t == [t[0]] + t[1..];
  }

  lemma FlagStep(fmt: string, i: nat, f: Flags)
    requires i < |fmt| && IsFlag(fmt[i])
    ensures ParseFlags(fmt, i, f) == ParseFlags(fmt, i + 1, Flagged(f, [fmt[i]]))
  {
  }

  lemma {:induction false} FlagsRead(fmt: string, i: nat, t: string, f: Flags)
    requires Stands(fmt, i, t) && (forall c <- t :: IsFlag(c)) && !IsFlag(At(fmt, i + |t|))
    ensures ParseFlags(fmt, i, f) == (Flagged(f, t), i + |t|)
    decreases |t|
  {
    if t == "" {
      assert Flagged(f, t) == f;
    } else {
      FirstChar(fmt, i, t);
      FlagStep(fmt, i, f);
      FlagsRead(fmt, i + 1, t[1..], Flagged(f, [t[0]]));
      FlagsJoin(f, t);
    }
  }

  lemma {:induction false} DecimalDigits(v: nat)
    ensures forall c <- DigitsOf(v, 10, false) :: IsDigit(c)
    ensures DigitsOf(v, 10, false)[0] == '0' <==> v == 0
    decreases v
  {
    if v >= 10 {
      DecimalDigits(v / 10);
    }
  }

  lemma {:induction false} SkipEnds(fmt: string, i: nat, t: string, acc: int)
    requires Stands(fmt, i, t) && (forall c <- t :: IsDigit(c)) && !IsDigit(At(fmt, i + |t|))
    ensures SkipAtoi(fmt, i, acc).1 == i + |t|
    decreases |t|
  {
    if t != "" {
      FirstChar(fmt, i, t);
      assert IsDigit(fmt[i]);
      SkipEnds(fmt, i + 1, t[1..], acc * 10 + (fmt[i] - '0') as int);
    }
  }

  lemma StandsRest(fmt: string, i: nat, t: string)
    requires Stands(fmt, i, t)
    ensures fmt[i..] == t + fmt[i + |t|..]
    ensures fmt[i + |t|..] == "" || fmt[i + |t|..][0] == At(fmt, i + |t|)
  {
    assert fmt[i..] == fmt[i..i + |t|] + fmt[i + |t|..];
  }

  /** A decimal number in the format is read to its end and for its value. */
  lemma DecimalRead(fmt: string, i: nat, v: nat)
    requires Stands(fmt, i, DigitsOf(v, 10, false)) && !IsDigit(At(fmt, i + |DigitsOf(v, 10, false)|))
    ensures SkipAtoi(fmt, i, 0) == (v, i + |DigitsOf(v, 10, false)|)
  {
    var t := DigitsOf(v, 10, false);
    DecimalDigits(v);
    SkipEnds(fmt, i, t, 0);
    SkipReads(fmt, i, 0);
    StandsRest(fmt, i, t);
    DigitsRead(v, 10, false, fmt[i + |t|..], 0);
    AppendedToZero(v, 10);
  }

  /** What may follow a field: neither a digit nor a star. */
  predicate Closes(c: char) {
    !IsDigit(c) && c != '*'
  }

  lemma FirstOfField(fmt: string, i: nat, w: Field)
    requires Stands(fmt, i, FieldText(w)) && Closes(At(fmt, i + |FieldText(w)|))
    ensures IsDigit(At(fmt, i)) <==> w.Given?
    ensures At(fmt, i) == '*' <==> w == Star
    ensures IsFlag(At(fmt, i)) <==> w == Given(0) || (w == Absent && IsFlag(At(fmt, i)))
  {
    if w.Given? {
      DecimalDigits(w.value);
      FirstChar(fmt, i, FieldText(w));
    } else if w == Star {
      FirstChar(fmt, i, "*");
    }
  }

  /** The state of the parser behind the width. */
  function WithWidth(f: Flags, w: Field, i: nat, k: nat, args: Args): Spec {
    Spec(f.(left := f.left || (w == Star && Argument(args, k) < 0)), FieldValue(w, -1, args, k, true), -1, false,
         i + |FieldText(w)|, k + Taken(w))
  }

  lemma WidthRead(fmt: string, i: nat, w: Field, f: Flags, k: nat, args: Args)
    requires Stands(fmt, i, FieldText(w)) && Closes(At(fmt, i + |FieldText(w)|))
    ensures ParseWidth(fmt, i, f, k, args) == WithWidth(f, w, i, k, args)
  {
    FirstOfField(fmt, i, w);
    if w.Given? {
      DecimalRead(fmt, i, w.value);
    }
  }

  lemma PrecisionFrom(fmt: string, s: Spec, w: Field, n: nat, args: Args)
    requires At(fmt, s.conv) == '.' && (w == Absent ==> n == 0) && (w == Star ==> n == 1)
    requires (IsDigit(At(fmt, s.conv + 1)) <==> w.Given?) && (At(fmt, s.conv + 1) == '*' <==> w == Star)
    requires w.Given? ==> SkipAtoi(fmt, s.conv + 1, 0) == (w.value, s.conv + 1 + n)
    ensures ParsePrecision(fmt, s, args)
            == s.(precision := FieldValue(w, 0, args, s.args, false), conv := s.conv + 1 + n, args := s.args + Taken(w))
  {
  }

  lemma FieldRead(fmt: string, i: nat, w: Field, n: nat)
    requires n == |FieldText(w)| && Stands(fmt, i, FieldText(w)) && Closes(At(fmt, i + n))
    ensures (IsDigit(At(fmt, i)) <==> w.Given?) && (At(fmt, i) == '*' <==> w == Star)
    ensures w.Given? ==> SkipAtoi(fmt, i, 0) == (w.value, i + n)
    ensures (w == Absent ==> n == 0) && (w == Star ==> n == 1)
  {
    FirstOfField(fmt, i, w);
    if w.Given? {
      DecimalRead(fmt, i, w.value);
    }
  }

  lemma PrecisionRead(fmt: string, s: Spec, w: Field, args: Args)
    requires Stands(fmt, s.conv, "." + FieldText(w)) && Closes(At(fmt, s.conv + 1 + |FieldText(w)|))
    ensures ParsePrecision(fmt, s, args)
            == s.(precision := FieldValue(w, 0, args, s.args, false),
                  conv := s.conv + 1 + |FieldText(w)|, args := s.args + Taken(w))
  {
    StandsSplit(fmt, s.conv, ".", FieldText(w));
    FirstChar(fmt, s.conv, ".");
    FieldRead(fmt, s.conv + 1, w, |FieldText(w)|);
    PrecisionFrom(fmt, s, w, |FieldText(w)|, args);
  }

  /** The end of a directive: the qualifier and the conversion character. */
  lemma EndRead(fmt: string, s: Spec, q: string, c: char)
    requires q in {"", "h", "l"} && Ends(c) && Stands(fmt, s.conv, q + [c])
    ensures ParseQualifier(fmt, s) == s.(short := s.short || q == "h", conv := s.conv + |q|)
    ensures At(fmt, s.conv + |q|) == c && Closes(At(fmt, s.conv)) && !IsFlag(At(fmt, s.conv)) && At(fmt, s.conv) != '.'
  {
    StandsSplit(fmt, s.conv, q, [c]);
    if q != "" {
      FirstChar(fmt, s.conv, q);
    }
  }

  /** s with the precision of d, and the arguments and characters that it takes. */
  function WithPoint(s: Spec, d: Directive, args: Args): Spec {
    if d.point then
      s.(precision := FieldValue(d.precision, 0, args, s.args, false),
         conv := s.conv + |PointText(d)|, args := s.args + Taken(d.precision))
    else s
  }

  lemma PointRead(fmt: string, s: Spec, d: Directive, args: Args)
    requires Stands(fmt, s.conv, PointText(d))
    requires Closes(At(fmt, s.conv + |PointText(d)|)) && At(fmt, s.conv + |PointText(d)|) != '.'
    ensures ParsePrecision(fmt, s, args) == WithPoint(s, d, args)
    ensures d.point ==> At(fmt, s.conv) == '.'
  {
    if d.point {
      FirstChar(fmt, s.conv, PointText(d));
      PrecisionRead(fmt, s, d.precision, args);
    }
  }

  /** s with the end of d. */
  function WithEnd(s: Spec, d: Directive): Spec {
    s.(short := d.qualifier == "h", conv := s.conv + |d.qualifier|)
  }

  /** The tail of a directive, from its point on. */
  lemma TailRead(fmt: string, t: nat, s: Spec, d: Directive, args: Args)
    requires Writable(d) && !s.short && s.conv == t && Stands(fmt, t, PointText(d) + (d.qualifier + [d.conv]))
    ensures ParseQualifier(fmt, ParsePrecision(fmt, s, args)) == WithEnd(WithPoint(s, d, args), d)
    ensures At(fmt, t + |PointText(d)| + |d.qualifier|) == d.conv
    ensures Closes(At(fmt, t)) && !IsFlag(At(fmt, t))
  {
    StandsSplit(fmt, s.conv, PointText(d), d.qualifier + [d.conv]);
    EndRead(fmt, WithPoint(s, d, args), d.qualifier, d.conv);
    PointRead(fmt, s, d, args);
  }

  /** The pieces of what a directive means. */
  lemma MeaningBuilt(d: Directive, j: nat, k: nat, args: Args)
    requires Writable(d)
    ensures WithEnd(WithPoint(WithWidth(Flagged(PLAIN, d.flags), d.width, j, k, args), d, args), d)
            == Meaning(d, j + |FieldText(d.width)| + |PointText(d)| + |d.qualifier|, k, args)
  {
  }

  lemma ParseSteps(fmt: string, i: nat, k: nat, args: Args, f: Flags, j: nat, s: Spec)
    requires i < |fmt| && ParseFlags(fmt, i + 1, PLAIN) == (f, j) && ParseWidth(fmt, j, f, k, args) == s
    ensures Parse(fmt, i, k, args) == ParseQualifier(fmt, ParsePrecision(fmt, s, args))
  {
  }

  /** The head of a directive: behind the flags comes a width, or the tail, and neither begins with a flag. */
  lemma HeadRead(fmt: string, i: nat, d: Directive, j: nat, t: nat, k: nat, args: Args)
    requires Writable(d) && Stands(fmt, i + 1, d.flags) && j == i + 1 + |d.flags|
    requires Stands(fmt, j, FieldText(d.width))
    requires t == j + |FieldText(d.width)| && Closes(At(fmt, t)) && !IsFlag(At(fmt, t))
    ensures ParseFlags(fmt, i + 1, PLAIN) == (Flagged(PLAIN, d.flags), j)
    ensures ParseWidth(fmt, j, Flagged(PLAIN, d.flags), k, args)
            == WithWidth(Flagged(PLAIN, d.flags), d.width, j, k, args)
  {
    FirstOfField(fmt, j, d.width);
    FlagsRead(fmt, i + 1, d.flags, PLAIN);
    WidthRead(fmt, j, d.width, Flagged(PLAIN, d.flags), k, args);
  }

  lemma Nested(z: string, a: string, b: string, c: string, d: string, e: string)
    ensures z + a + b + c + d + e == z + (a + (b + (c + (d + e))))
  {
  }

  lemma FourStand(fmt: string, i: nat, a: string, b: string, c: string, d: string, e: string)
    requires Stands(fmt, i, "%" + a + b + c + d + e)
    ensures i < |fmt| && Stands(fmt, i + 1, a) && Stands(fmt, i + 1 + |a|, b)
    ensures Stands(fmt, i + 1 + |a| + |b|, c + (d + e))
  {
    var tail := c + (d + e);
    Nested("%", a, b, c, d, e);
    StandsSplit(fmt, i, "%", a + (b + tail));
    StandsSplit(fmt, i + 1, a, b + tail);
    StandsSplit(fmt, i + 1 + |a|, b, tail);
  }

  lemma PartsStand(fmt: string, i: nat, d: Directive)
    requires Stands(fmt, i, DirectiveText(d))
    ensures i < |fmt| && Stands(fmt, i + 1, d.flags) && Stands(fmt, i + 1 + |d.flags|, FieldText(d.width))
    ensures Stands(fmt, i + 1 + |d.flags| + |FieldText(d.width)|, PointText(d) + (d.qualifier + [d.conv]))
  {
    FourStand(fmt, i, d.flags, FieldText(d.width), PointText(d), d.qualifier, [d.conv]);
  }

  /** Wherever a writable directive stands, the parser finds its conversion character and what it asks for. */
  lemma ParseMeans(fmt: string, i: nat, k: nat, args: Args, d: Directive)
    requires Writable(d) && Stands(fmt, i, DirectiveText(d))
    ensures i < |fmt|
    ensures Parse(fmt, i, k, args) == Meaning(d, i + |DirectiveText(d)| - 1, k, args)
    ensures At(fmt, i + |DirectiveText(d)| - 1) == d.conv
  {
    var j, f := i + 1 + |d.flags|, Flagged(PLAIN, d.flags);
    var s := WithWidth(f, d.width, j, k, args);
    PartsStand(fmt, i, d);
    TailRead(fmt, s.conv, s, d, args);
    HeadRead(fmt, i, d, j, s.conv, k, args);
    ParseSteps(fmt, i, k, args, f, j, s);
    MeaningBuilt(d, j, k, args);
  }
}
