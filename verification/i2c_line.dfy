/** What a receiver makes of the two lines of an I2C bus: sections 3.1.3 and 3.1.4 of NXP UM10204. */
module I2cLine {
  import Bits
  import opened Ram

  datatype Lines = Lines(scl: bool, sda: bool)

  datatype Event = Start | Stop | Bit(level: bool)

  /** What has been seen so far; stable says that SDA has not changed since SCL last rose. */
  datatype Seen = Seen(scl: bool, sda: bool, stable: bool, events: seq<Event>)

  /** SDA falling while SCL is high is a START, rising a STOP; a clock pulse with SDA stable is a data bit. */
  function Observe(s: Seen, l: Lines): Seen {
    if s.scl && l.scl then
      if s.sda == l.sda then s
      else Seen(true, l.sda, false, s.events + [if s.sda then Start else Stop])
    else if l.scl then Seen(true, l.sda, true, s.events)
    else if s.scl then Seen(false, l.sda, false, if s.stable then s.events + [Bit(s.sda)] else s.events)
    else Seen(false, l.sda, false, s.events)
  }

  /** The view of a receiver that saw the bus idle, both lines high, before the trace began. */
  function Decode(trace: seq<Lines>): Seen {
    if trace == [] then Seen(true, true, false, [])
    else Observe(Decode(trace[..|trace| - 1]), trace[|trace| - 1])
  }

  lemma DecodeGrows(trace: seq<Lines>, l: Lines)
    ensures Decode(trace + [l]) == Observe(Decode(trace), l)
  {
    assert (trace + [l])[..|trace|] == trace;
  }

  // ----- bytes on the line

  /** The byte after one left shift. */
  function Shifted(d: Byte): Byte {
    if d >= 128 then 2 * d - 256 else 2 * d
  }

  lemma ShiftedIsCast(d: int)
    requires 0 <= d < 256
    ensures d * 2 % 256 == Shifted(d) && d / 128 == if d >= 128 then 1 else 0
  {
  }

  /** The first n bits of a byte, most significant first, as they appear on SDA. */
  function BitsOf(data: Byte, n: nat): (r: seq<Event>)
    requires n <= 8
    ensures |r| == n
    decreases n
  {
    if n == 0 then [] else [Bit(data >= 128)] + BitsOf(Shifted(data), n - 1)
  }

  /** The number whose binary digits, most significant first, are the levels of es. */
  function Value(es: seq<Event>): nat {
    if es == [] then 0
    else 2 * Value(es[..|es| - 1]) + if es[|es| - 1] == Bit(true) then 1 else 0
  }

  lemma {:induction false} ValueCons(e: Event, es: seq<Event>)
    ensures Value([e] + es) == (if e == Bit(true) then Bits.Pow2(|es|) else 0) + Value(es)
  {
    if es == [] {
      assert [e] + es == [e] && [e][..0] == [];
    } else {
      var n := |es|;
      assert ([e] + es)[..n] == [e] + es[..n - 1];
      ValueCons(e, es[..n - 1]);
    }
  }

  /** The byte after n left shifts. */
  function Rest(data: Byte, n: nat): Byte
    decreases n
  {
    if n == 0 then data else Rest(Shifted(data), n - 1)
  }

  /** The i-th bit is the top bit after i shifts. */
  lemma {:induction false} BitAt(data: Byte, n: nat, i: nat)
    requires i < n <= 8
    ensures BitsOf(data, n)[i] == Bit(Rest(data, i) >= 128)
    ensures Rest(data, i + 1) == Shifted(Rest(data, i))
    decreases n
  {
    if i > 0 {
      BitAt(Shifted(data), n - 1, i - 1);
    }
  }

  lemma ShiftOut(data: int, h: int, next: int, q: int)
    requires next == 2 * data - 256 * h
    ensures 256 * (h * q) + next * q == data * (2 * q)
    ensures h == 1 ==> h * q == q
  {
  }

  lemma {:induction false} BitsAndRest(data: Byte, n: nat)
    requires n <= 8
    ensures 256 * Value(BitsOf(data, n)) + Rest(data, n) == data * Bits.Pow2(n)
    decreases n
  {
    if n > 0 {
      var h := if data >= 128 then 1 else 0;
      var next := Shifted(data);
      BitsAndRest(next, n - 1);
      ValueCons(Bit(data >= 128), BitsOf(next, n - 1));
      ShiftOut(data, h, next, Bits.Pow2(n - 1));
    }
  }

  lemma WidthDenotes(data: Byte, n: nat)
    requires n <= 8 && Bits.Pow2(n) == 256
    ensures Value(BitsOf(data, n)) == data
  {
    BitsAndRest(data, n);
  }

  /** Eight bits sent most significant first denote the byte. */
  lemma BitsDenote(data: Byte)
    ensures Value(BitsOf(data, 8)) == data
  {
    Bits.Pow2Values();
    WidthDenotes(data, 8);
  }

  // ----- whole transfers

  /** When the slave answers a byte: before SCL rises, or after so many polls that still read high. */
  datatype Ack = Early | Late(polls: nat)

  const POLLS := 0x1000

  /** The master sees an answer in time. */
  predicate Answered(a: Ack) {
    a == Early || a.polls < POLLS
  }

  /** What the ninth clock pulse looks like; a silent slave is answered with a STOP. */
  function AckEvents(a: Ack): seq<Event> {
    match a
    case Early => [Bit(false)]
    case Late(polls) => if polls < POLLS then [Start] else [Bit(true), Stop]
  }

  function ByteEvents(data: Byte, a: Ack): seq<Event> {
    BitsOf(data, 8) + AckEvents(a)
  }

  function BytesEvents(bytes: seq<Byte>, acks: seq<Ack>): seq<Event>
    requires |bytes| == |acks|
  {
    if bytes == [] then []
    else BytesEvents(bytes[..|bytes| - 1], acks[..|acks| - 1]) + ByteEvents(bytes[|bytes| - 1], acks[|acks| - 1])
  }

  function TransferEvents(bytes: seq<Byte>, acks: seq<Ack>): seq<Event>
    requires |bytes| == |acks|
  {
    [Start] + BytesEvents(bytes, acks) + [Stop]
  }

  predicate AllBits(es: seq<Event>) {
    forall i :: 0 <= i < |es| ==> es[i].Bit?
  }

  lemma {:induction false} ByteRange(es: seq<Event>)
    ensures 0 <= Value(es) < Bits.Pow2(|es|)
    ensures |es| == 8 ==> Value(es) < 256
  {
    if es != [] {
      ByteRange(es[..|es| - 1]);
    }
    assert Bits.Pow2(4) == 16 && Bits.Pow2(8) == 16 * 16;
  }

  function ParseBytes(es: seq<Event>): Option<seq<Byte>> {
    var n := |es|;
    if n == 0 then Some([])
    else if n < 9 || es[n - 1] != Bit(false) || !AllBits(es[n - 9..]) then None
    else
      match ParseBytes(es[..n - 9])
      case None => None
      case Some(front) => ByteRange(es[n - 9..n - 1]); Some(front + [Value(es[n - 9..n - 1])])
  }

  /** A well-framed write: one START, then groups of eight bits and an acknowledging low bit, then one STOP.
      The result is the bytes, or None when the events are anything else. */
  function Parse(es: seq<Event>): Option<seq<Byte>> {
    if |es| < 2 || es[0] != Start || es[|es| - 1] != Stop then None else ParseBytes(es[1..|es| - 1])
  }

  datatype Option<T> = None | Some(value: T)

  lemma {:induction false} BitsAreBits(data: Byte, n: nat)
    requires n <= 8
    ensures AllBits(BitsOf(data, n))
    decreases n
  {
    if n > 0 {
      BitsAreBits(Shifted(data), n - 1);
    }
  }

  predicate AllEarly(acks: seq<Ack>) {
    forall i :: 0 <= i < |acks| ==> acks[i] == Early
  }

  /** Nine clock pulses: one byte and its acknowledge. */
  lemma ParseOneByte(front: seq<Event>, data: Byte)
    ensures var r := ParseBytes(front + ByteEvents(data, Early));
            r == if ParseBytes(front).Some? then Some(ParseBytes(front).value + [data]) else None
  {
    var bits := BitsOf(data, 8);
    var es := front + ByteEvents(data, Early);
    var n := |es|;
    BitsAreBits(data, 8);
    BitsDenote(data);
    assert es[..n - 9] == front && es[n - 9..] == bits + [Bit(false)];
    assert es[n - 9..n - 1] == bits && es[n - 1] == Bit(false);
  }

  lemma SplitLast<T>(s: seq<T>, k: nat)
    requires |s| == k + 1
    ensures s == s[..k] + [s[k]]
  {
  }

  lemma ParseGrows(bytes: seq<Byte>, acks: seq<Ack>, k: nat)
    requires |bytes| == |acks| == k + 1 && acks[k] == Early
    requires ParseBytes(BytesEvents(bytes[..k], acks[..k])) == Some(bytes[..k])
    ensures ParseBytes(BytesEvents(bytes, acks)) == Some(bytes)
  {
    ParseOneByte(BytesEvents(bytes[..k], acks[..k]), bytes[k]);
    SplitLast(bytes, k);
  }

  lemma {:induction false} EarlyBytesParse(bytes: seq<Byte>, acks: seq<Ack>)
    requires |bytes| == |acks| && AllEarly(acks)
    ensures ParseBytes(BytesEvents(bytes, acks)) == Some(bytes)
  {
    if bytes != [] {
      EarlyBytesParse(bytes[..|bytes| - 1], acks[..|bytes| - 1]);
      ParseGrows(bytes, acks, |bytes| - 1);
    }
  }

  lemma BitsTogether(es: seq<Event>, k: nat)
    requires k <= |es| && AllBits(es[..k]) && AllBits(es[k..])
    ensures AllBits(es)
  {
    forall i | 0 <= i < |es|
      ensures es[i].Bit?
    {
      assert es[i] == if i < k then es[..k][i] else es[k..][i - k];
    }
  }

  lemma {:induction false} ParsedAreBits(es: seq<Event>)
    requires ParseBytes(es).Some?
    ensures AllBits(es)
  {
    var n := |es|;
    if n > 0 {
      ParsedAreBits(es[..n - 9]);
      BitsTogether(es, n - 9);
    }
  }

  lemma BitsOfParts(a: seq<Event>, b: seq<Event>)
    requires AllBits(a + b)
    ensures AllBits(a) && AllBits(b)
  {
    assert forall i :: 0 <= i < |a| ==> a[i] == (a + b)[i];
    forall i | 0 <= i < |b|
      ensures b[i].Bit?
    {
      assert b[i] == (a + b)[|a| + i];
    }
  }

  lemma AckBitsAreEarly(a: Ack)
    requires AllBits(AckEvents(a))
    ensures a == Early
  {
    var es := AckEvents(a);
    assert es[|es| - 1].Bit?;
  }

  lemma LastIsEarly(bytes: seq<Byte>, acks: seq<Ack>, k: nat)
    requires |bytes| == |acks| == k + 1 && AllBits(BytesEvents(bytes, acks))
    ensures AllBits(BytesEvents(bytes[..k], acks[..k])) && acks[k] == Early
  {
    BitsOfParts(BytesEvents(bytes[..k], acks[..k]), ByteEvents(bytes[k], acks[k]));
    BitsOfParts(BitsOf(bytes[k], 8), AckEvents(acks[k]));
    AckBitsAreEarly(acks[k]);
  }

  lemma EarlyGrows(acks: seq<Ack>, k: nat)
    requires |acks| == k + 1 && AllEarly(acks[..k]) && acks[k] == Early
    ensures AllEarly(acks)
  {
    assert forall i :: 0 <= i < k ==> acks[i] == acks[..k][i];
  }

  lemma {:induction false} BitsMeanEarly(bytes: seq<Byte>, acks: seq<Ack>)
    requires |bytes| == |acks| && AllBits(BytesEvents(bytes, acks))
    ensures AllEarly(acks)
  {
    if bytes != [] {
      var k := |bytes| - 1;
      LastIsEarly(bytes, acks, k);
      BitsMeanEarly(bytes[..k], acks[..k]);
      EarlyGrows(acks, k);
    }
  }

  /** A transfer is one START, the bytes most significant bit first, each acknowledged, and one STOP, with SDA
      steady whenever SCL is high, exactly when the slave answers every byte before the ninth pulse. */
  lemma WellFramedExactly(bytes: seq<Byte>, acks: seq<Ack>)
    requires |bytes| == |acks|
    ensures Parse(TransferEvents(bytes, acks)) == Some(bytes) <==> AllEarly(acks)
    ensures Parse(TransferEvents(bytes, acks)).Some? ==> AllEarly(acks)
  {
    var es := TransferEvents(bytes, acks);
    assert es[1..|es| - 1] == BytesEvents(bytes, acks);
    if Parse(es).Some? {
      ParsedAreBits(BytesEvents(bytes, acks));
      BitsMeanEarly(bytes, acks);
    }
    if AllEarly(acks) {
      EarlyBytesParse(bytes, acks);
    }
  }
}
