/** The bit-banged I2C master. Every pin operation adds one sample of the two lines to the trace. */
module I2cMaster {
  import opened I2cLine
  import Ram

  lemma OneMore(bytes: seq<Ram.Byte>, acks: seq<Ack>, i: nat)
    requires i < |bytes| == |acks|
    ensures BytesEvents(bytes[..i + 1], acks[..i + 1])
            == BytesEvents(bytes[..i], acks[..i]) + ByteEvents(bytes[i], acks[i])
  {
    assert bytes[..i + 1][..i] == bytes[..i] && acks[..i + 1][..i] == acks[..i];
  }

  class Bus {
    var scl: bool
    var latch: bool
    var driving: bool
    var slaveLow: bool
    ghost var trace: seq<Lines>

    /** SDA follows the output register while the pin drives it; otherwise the register
        selects the pull-up and the slave may pull low. */
    predicate Level()
      reads this
    {
      if driving then latch else latch && !slaveLow
    }

    ghost function Heard(): Seen
      reads `trace
    {
      Decode(trace)
    }

    ghost predicate Valid()
      reads this
    {
      Heard().scl == scl && Heard().sda == Level()
    }

    /** SCL is low, or the bus is idle: both lines high and no data bit under way. */
    ghost predicate Ready()
      reads this
    {
      Valid() && (scl ==> latch && Level() && !Heard().stable)
    }

    /** IIC_Init */
    constructor ()
      ensures Ready() && scl && !slaveLow && trace == []
    {
      scl, latch, driving, slaveLow := true, true, true, false;
      trace := [];
    }

    method Sample()
      modifies `trace
      ensures Heard() == Observe(old(Heard()), Lines(scl, Level()))
    {
      ghost var l, before := Lines(scl, Level()), trace;
      trace := trace + [l];
      DecodeGrows(before, l);
    }

    method Scl(level: bool)
      modifies `scl, `trace
      ensures scl == level && Heard() == Observe(old(Heard()), Lines(level, Level()))
    {
      scl := level;
      Sample();
    }

    method Sda(level: bool)
      modifies `latch, `trace
      ensures latch == level && Heard() == Observe(old(Heard()), Lines(scl, Level()))
    {
      latch := level;
      Sample();
    }

    method Direction(out: bool)
      modifies `driving, `trace
      ensures driving == out && Heard() == Observe(old(Heard()), Lines(scl, Level()))
    {
      driving := out;
      Sample();
    }

    /** The slave pulls SDA low or lets it go. */
    method Slave(low: bool)
      modifies `slaveLow, `trace
      ensures slaveLow == low && Heard() == Observe(old(Heard()), Lines(scl, Level()))
    {
      slaveLow := low;
      Sample();
    }

    /** IIC_Start */
    method Start()
      requires Ready() && !slaveLow
      modifies this
      ensures Ready() && !scl && !slaveLow
      ensures Heard().events == old(Heard().events) + [I2cLine.Start]
    {
      Direction(true);
      Sda(true);
      Scl(true);
      Sda(false);
      Scl(false);
    }

    /** IIC_Stop; a data bit that is under way, as after a missing acknowledge, is completed first. */
    method Stop()
      requires Valid() && !slaveLow && (scl ==> latch && Level())
      modifies this
      ensures Ready() && scl && !slaveLow
      ensures Heard().events == old(Heard().events)
              + (if old(scl && Heard().stable) then [Bit(true)] else []) + [I2cLine.Stop]
    {
      Direction(true);
      Scl(false);
      Sda(false);
      Scl(true);
      Sda(true);
    }

    /** One turn of the loop of IIC_SendData: a bit set up while SCL is low, and a clock pulse. */
    method SendBit(level: bool)
      requires Valid() && !scl && driving
      modifies `latch, `scl, `trace
      ensures Valid() && !scl
      ensures Heard().events == old(Heard().events) + [Bit(level)]
    {
      Sda(level);
      Scl(true);
      Scl(false);
    }

    lemma Grow(a: seq<Event>, b: seq<Event>, i: nat)
      requires i < |b|
      ensures a + b[..i + 1] == a + b[..i] + [b[i]]
    {
    }

    lemma Whole(b: seq<Event>)
      ensures b[..|b|] == b
    {
    }

    /** IIC_SendData */
    method SendData(data: Ram.Byte)
      requires Ready() && !slaveLow
      modifies this
      ensures Ready() && !scl && !slaveLow
      ensures Heard().events == old(Heard().events) + BitsOf(data, 8)
    {
      var d: int, i := data, 0;
      ghost var bits := BitsOf(data, 8);
      Direction(true);
      Scl(false);
      while i < 8
        invariant 0 <= i <= 8 && d == Rest(data, i)
        invariant Valid() && !scl && !slaveLow && driving
        invariant Heard().events == old(Heard().events) + bits[..i]
      {
        BitAt(data, 8, i);
        ShiftedIsCast(d);
        Grow(old(Heard().events), bits, i);
        SendBit(d / 128 == 1);
        d := d * 2 % 256;
        i := i + 1;
      }
      Whole(bits);
    }

    lemma Append(a: seq<Event>, b: seq<Event>, c: seq<Event>)
      ensures a + b + c == a + (b + c)
    {
    }

    /** IIC_WaitAck, against a slave that answers as a says; the result is the returned flag. */
    method WaitAck(a: Ack) returns (ret: bool)
      requires Ready() && !scl && !slaveLow
      modifies this
      ensures Ready() && !slaveLow
      ensures Heard().events == old(Heard().events) + AckEvents(a)
      ensures ret <==> a == Early || a.polls < 0x1000
      ensures scl <==> !ret
    {
      var timeout := POLLS;
      Direction(false);
      Sda(true);
      if a == Early {
        Slave(true);
      }
      Scl(true);
      ghost var before := Heard();
      if a == Late(0) {
        Slave(true);
      }
      while Level()
        invariant 0 < timeout <= POLLS && scl && latch && !driving && Valid()
        invariant slaveLow <==> a == Early || a.polls <= POLLS - timeout
        invariant Heard() == if a == Early || !slaveLow then before
                             else Seen(true, false, false, before.events + [I2cLine.Start])
        decreases timeout
      {
        timeout := timeout - 1;
        if timeout == 0 {
          Stop();
          return false;
        }
        if a == Late(POLLS - timeout) {
          Slave(true);
        }
      }
      Scl(false);
      Slave(false);
      ret := true;
    }

    /** A byte and its acknowledge. */
    method SendAndWait(data: Ram.Byte, a: Ack) returns (ret: bool)
      requires Ready() && !slaveLow
      modifies this
      ensures Ready() && !slaveLow && (scl <==> !ret)
      ensures Heard().events == old(Heard().events) + ByteEvents(data, a)
      ensures ret <==> Answered(a)
    {
      Append(Heard().events, BitsOf(data, 8), AckEvents(a));
      SendData(data);
      ret := WaitAck(a);
    }

    /** The next byte of a row, with its acknowledge, behind the events e. */
    method SendNext(bytes: seq<Ram.Byte>, acks: seq<Ack>, i: nat, ghost e: seq<Event>) returns (ret: bool)
      requires i < |bytes| == |acks| && Ready() && !slaveLow
      requires Heard().events == e + BytesEvents(bytes[..i], acks[..i])
      modifies this
      ensures Ready() && !slaveLow && (scl <==> !ret) && (ret <==> Answered(acks[i]))
      ensures Heard().events == e + BytesEvents(bytes[..i + 1], acks[..i + 1])
    {
      Append(e, BytesEvents(bytes[..i], acks[..i]), ByteEvents(bytes[i], acks[i]));
      OneMore(bytes, acks, i);
      ret := SendAndWait(bytes[i], acks[i]);
    }

    lemma Framed(e: seq<Event>, sent: seq<Event>)
      ensures e + [I2cLine.Start] + sent + [I2cLine.Stop] == e + ([I2cLine.Start] + sent + [I2cLine.Stop])
    {
    }

    /** A write of any number of bytes: START, each byte with its acknowledge, STOP, whatever the acknowledges are. */
    method Transfer(bytes: seq<Ram.Byte>, acks: seq<Ack>)
      requires |bytes| == |acks|
      requires Ready() && !slaveLow
      modifies this
      ensures Ready() && scl && !slaveLow
      ensures Heard().events == old(Heard().events) + TransferEvents(bytes, acks)
    {
      Start();
      ghost var e := Heard().events;
      assert e + [] == e;
      var i := 0;
      while i < |bytes|
        invariant 0 <= i <= |bytes| && Ready() && !slaveLow
        invariant Heard().events == e + BytesEvents(bytes[..i], acks[..i])
      {
        var ret := SendNext(bytes, acks, i, e);
        i := i + 1;
      }
      assert bytes[..i] == bytes && acks[..i] == acks;
      Framed(old(Heard().events), BytesEvents(bytes, acks));
      Stop();
    }

    method SendLastTwo(bytes: seq<Ram.Byte>, acks: seq<Ack>, i: nat, ghost e: seq<Event>)
      requires |bytes| == |acks| == i + 2 && Ready() && !slaveLow
      requires Heard().events == e + BytesEvents(bytes[..i], acks[..i])
      modifies this
      ensures Ready() && !slaveLow && Heard().events == e + BytesEvents(bytes, acks)
    {
      var ret := SendNext(bytes, acks, i, e);
      ret := SendNext(bytes, acks, i + 1, e);
      assert bytes[..i + 2] == bytes && acks[..i + 2] == acks;
    }

    /** AT24CXX_writebyte: the bytes are the device's address, the low byte of the cell's address, and the data.
        When the device does not answer to its address, the driver sends nothing more; WaitAck has made the STOP. */
    method WriteByte(bytes: seq<Ram.Byte>, acks: seq<Ack>) returns (sent: bool)
      requires |bytes| == |acks| == 3 && bytes[0] == 0xA0
      requires Ready() && !slaveLow
      modifies this
      ensures Ready() && scl && !slaveLow && (sent <==> Answered(acks[0]))
      ensures sent ==> Heard().events == old(Heard().events) + TransferEvents(bytes, acks)
      ensures !sent ==> Heard().events
                        == old(Heard().events) + [I2cLine.Start] + BytesEvents(bytes[..1], acks[..1])
    {
      Start();
      ghost var e := Heard().events;
      assert e + [] == e;
      sent := SendNext(bytes, acks, 0, e);
      if sent {
        SendLastTwo(bytes, acks, 1, e);
        Framed(old(Heard().events), BytesEvents(bytes, acks));
        Stop();
      }
    }
  }

  /** From power-up, one transfer: what a receiver decodes from the two lines is one START, the bytes with their
      acknowledges, and one STOP, exactly when the slave answers each byte before its ninth pulse. */
  method PowerUpAndTransfer(bytes: seq<Ram.Byte>, acks: seq<Ack>) returns (bus: Bus)
    requires |bytes| == |acks|
    ensures Parse(bus.Heard().events) == Some(bytes) <==> AllEarly(acks)
    ensures Parse(bus.Heard().events).Some? ==> AllEarly(acks)
  {
    bus := new Bus();
    bus.Transfer(bytes, acks);
    WellFramedExactly(bytes, acks);
    assert [] + TransferEvents(bytes, acks) == TransferEvents(bytes, acks);
  }
}
