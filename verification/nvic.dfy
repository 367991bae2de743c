/** Interrupt priorities: the split into a pre-emption and a sub-priority, and the priority registers. */
module Nvic {
  import Arithmetic
  import opened Bits
  import opened Ram

  /** The number of implemented priority bits; four by default. */
  type PrioBits = x: int | 1 <= x <= 8 witness 4

  lemma AndMaskSeven(x: nat)
    ensures And(x, 7) == x % 8
  {
    AndMask(x, 3);
    assert Pow2(3) == 8;
  }

  /** Only the values 0 to 7 of the group are used. */
  function GroupOf(group: Word): (g: nat)
    ensures g <= 7
  {
    AndMaskSeven(group);
    And(group, 7)
  }

  function PreemptBits(group: Word, prio: PrioBits): nat {
    var g := GroupOf(group);
    if 7 - g > prio then prio else 7 - g
  }

  function SubBits(group: Word, prio: PrioBits): nat {
    var g := GroupOf(group);
    if g + prio < 7 then 0 else g - 7 + prio
  }

  /** NVIC_EncodePriority */
  function Encode(group: Word, preempt: Word, sub: Word, prio: PrioBits): nat {
    Or(And(preempt, Pow2(PreemptBits(group, prio)) - 1) * Pow2(SubBits(group, prio)),
       And(sub, Pow2(SubBits(group, prio)) - 1))
  }

  /** NVIC_DecodePriority */
  function Decode(priority: Word, group: Word, prio: PrioBits): (nat, nat) {
    (And(ShiftRight(priority, SubBits(group, prio)), Pow2(PreemptBits(group, prio)) - 1),
     And(priority, Pow2(SubBits(group, prio)) - 1))
  }

  /** The two fields share the implemented bits. */
  lemma FieldsFill(group: Word, prio: PrioBits)
    ensures PreemptBits(group, prio) + SubBits(group, prio) == prio
  {
  }

  lemma Below(a: nat, b: nat, p: nat, s: nat)
    requires a < p && b < s
    ensures a * s + b < p * s
  {
    assert (a + 1) * s <= p * s;
  }

  /** The code is the masked pair written one above the other. */
  lemma EncodeMeans(group: Word, preempt: Word, sub: Word, prio: PrioBits)
    ensures var p, s := Pow2(PreemptBits(group, prio)), Pow2(SubBits(group, prio));
            Encode(group, preempt, sub, prio) == preempt % p * s + sub % s < Pow2(prio)
  {
    var k, j := PreemptBits(group, prio), SubBits(group, prio);
    AndMask(preempt, k);
    AndMask(sub, j);
    FieldsFill(group, prio);
    OrDisjoint(preempt % Pow2(k), sub % Pow2(j), j);
    Pow2Sum(k, j);
    Below(preempt % Pow2(k), sub % Pow2(j), Pow2(k), Pow2(j));
  }

  /** Decoding takes any value apart, whatever stands above the implemented bits. */
  lemma DecodeMeans(priority: Word, group: Word, prio: PrioBits)
    ensures var p, s := Pow2(PreemptBits(group, prio)), Pow2(SubBits(group, prio));
            Decode(priority, group, prio) == (priority / s % p, priority % s)
  {
    var k, j := PreemptBits(group, prio), SubBits(group, prio);
    ShiftRightDivides(priority, j);
    AndMask(ShiftRight(priority, j), k);
    AndMask(priority, j);
  }

  /** Decoding undoes encoding, up to the masks. */
  lemma DecodeEncoded(group: Word, preempt: Word, sub: Word, prio: PrioBits)
    ensures 0 <= Encode(group, preempt, sub, prio) < 0x1_0000_0000
    ensures Decode(Encode(group, preempt, sub, prio), group, prio)
            == (preempt % Pow2(PreemptBits(group, prio)), sub % Pow2(SubBits(group, prio)))
  {
    EncodeMeans(group, preempt, sub, prio);
    Pow2Mono(prio, 8);
    Pow2Values();
    var e, k, j := Encode(group, preempt, sub, prio), PreemptBits(group, prio), SubBits(group, prio);
    ShiftRightDivides(e, j);
    Arithmetic.Remainder(e, Pow2(j), preempt % Pow2(k), sub % Pow2(j));
    AndMask(preempt % Pow2(k), k);
    AndMask(e, j);
    Arithmetic.SmallRemainder(preempt % Pow2(k), Pow2(k));
  }

  lemma Lexicographic(a: nat, b: nat, c: nat, d: nat, k: nat)
    requires b < k && d < k
    ensures a * k + b < c * k + d <==> a < c || (a == c && b < d)
  {
    if a < c {
      assert (a + 1) * k <= c * k;
    } else if c < a {
      assert (c + 1) * k <= a * k;
    }
  }

  /** Within a group a lower code is a lower pre-emption priority or, at equal pre-emption, a lower
      sub-priority, for fields in range. */
  lemma EncodedOrder(group: Word, prio: PrioBits, p1: Word, s1: Word, p2: Word, s2: Word)
    requires p1 < Pow2(PreemptBits(group, prio)) && p2 < Pow2(PreemptBits(group, prio))
    requires s1 < Pow2(SubBits(group, prio)) && s2 < Pow2(SubBits(group, prio))
    ensures Encode(group, p1, s1, prio) < Encode(group, p2, s2, prio) <==> p1 < p2 || (p1 == p2 && s1 < s2)
  {
    EncodeMeans(group, p1, s1, prio);
    EncodeMeans(group, p2, s2, prio);
    Lexicographic(p1, s1, p2, s2, Pow2(SubBits(group, prio)));
    Arithmetic.SmallRemainder(p1, Pow2(PreemptBits(group, prio)));
    Arithmetic.SmallRemainder(p2, Pow2(PreemptBits(group, prio)));
    Arithmetic.SmallRemainder(s1, Pow2(SubBits(group, prio)));
    Arithmetic.SmallRemainder(s2, Pow2(SubBits(group, prio)));
  }

  /** The register value that holds a priority in its top bits, and the priority that it holds. */
  function WriteField(priority: int, prio: PrioBits): Byte {
    priority * Pow2(8 - prio) % 256
  }

  function ReadField(register: int, prio: PrioBits): int {
    register / Pow2(8 - prio)
  }

  lemma SplitProduct(x: nat, m: nat, k: nat)
    requires m > 0
    ensures x * k == x / m * (m * k) + x % m * k
  {
    var q, r := x / m, x % m;
    assert x == q * m + r;
    assert (q * m + r) * k == q * m * k + r * k;
    Arithmetic.Associate(q, m, k);
  }

  /** A value too large for the implemented bits loses its upper ones. */
  lemma FieldMeans(priority: Word, prio: PrioBits)
    ensures WriteField(priority, prio) == priority % Pow2(prio) * Pow2(8 - prio)
  {
    var m, k := Pow2(prio), Pow2(8 - prio);
    Pow2Sum(prio, 8 - prio);
    Pow2Values();
    Below(priority % m, 0, m, k);
    Arithmetic.NonNegative(priority % m, k);
    assert priority * k == priority / m * (m * k) + priority % m * k by {
      SplitProduct(priority, m, k);
    }
    Arithmetic.Remainder(priority * k, 256, priority / m, priority % m * k);
  }

  lemma NotCut(e: nat, prio: PrioBits)
    requires e < Pow2(prio)
    ensures WriteField(e, prio) == e * Pow2(8 - prio)
  {
    Pow2Sum(prio, 8 - prio);
    Pow2Values();
    Below(e, 0, Pow2(prio), Pow2(8 - prio));
    Arithmetic.NonNegative(e, Pow2(8 - prio));
    Arithmetic.SmallRemainder(e * Pow2(8 - prio), 256);
  }

  /** A code moved to the top bits of its register and back. */
  lemma RegisterKeeps(e: nat, prio: PrioBits)
    requires e < Pow2(prio)
    ensures ReadField(WriteField(e, prio), prio) == e
  {
    NotCut(e, prio);
    Arithmetic.Remainder(e * Pow2(8 - prio), Pow2(8 - prio), e, 0);
  }

  lemma FieldsApart(p: nat, s: nat, m: nat, k: nat, d: nat)
    requires s < m && k > 0 && d == m * k
    ensures d > 0 && (p * m + s) * k / d == p && (p * m + s) * k % d == s * k
  {
    Below(s, 0, m, k);
    Arithmetic.NonNegative(s, k);
    Arithmetic.NonNegative(m, k);
    Arithmetic.Associate(p, m, k);
    assert (p * m + s) * k == p * d + s * k;
    Arithmetic.Remainder((p * m + s) * k, d, p, s * k);
  }

  lemma WholeField(p: nat, m: nat, k: nat, d: nat)
    requires d > 0 && k == m * d
    ensures p * k / d == p * m && p * k % d == 0
  {
    Arithmetic.Associate(p, m, d);
    Arithmetic.Remainder(p * k, d, p * m, 0);
  }

  lemma SplitRegister(p: nat, s: nat, g: nat, j: nat, prio: PrioBits)
    requires g <= 7 && s < Pow2(j) && j == if g + prio < 7 then 0 else g - 7 + prio
    ensures var r := (p * Pow2(j) + s) * Pow2(8 - prio);
            && r / Pow2(g + 1) == p * Pow2(if g + prio < 7 then 7 - g - prio else 0)
            && r % Pow2(g + 1) == s * Pow2(8 - prio)
  {
    assert Pow2(0) == 1;
    if g + prio < 7 {
      Pow2Sum(7 - g - prio, g + 1);
      WholeField(p, Pow2(7 - g - prio), Pow2(8 - prio), Pow2(g + 1));
    } else {
      Pow2Sum(j, 8 - prio);
      FieldsApart(p, s, Pow2(j), Pow2(8 - prio), Pow2(g + 1));
    }
  }

  lemma SameMultiple(a: nat, b: nat, k: nat)
    requires k > 0
    ensures a * k == b * k <==> a == b
  {
    if a * k == b * k {
      Arithmetic.CancelFactor(k, a, b);
      Arithmetic.CancelFactor(k, b, a);
    }
  }

  /** Where the group puts the binary point: in the register that holds a code, the bits above bit group % 8 are the
      pre-emption priority, as far to the left as that point leaves room, and the others the sub-priority. */
  lemma BinaryPoint(group: Word, preempt: Word, sub: Word, prio: PrioBits)
    ensures var g, e := group % 8, Encode(group, preempt, sub, prio);
            var p, s := preempt % Pow2(PreemptBits(group, prio)), sub % Pow2(SubBits(group, prio));
            && WriteField(e, prio) == e * Pow2(8 - prio)
            && WriteField(e, prio) / Pow2(g + 1) == p * Pow2(if g + prio < 7 then 7 - g - prio else 0)
            && WriteField(e, prio) % Pow2(g + 1) == s * Pow2(8 - prio)
  {
    AndMaskSeven(group);
    EncodeMeans(group, preempt, sub, prio);
    NotCut(Encode(group, preempt, sub, prio), prio);
    var p, s := preempt % Pow2(PreemptBits(group, prio)), sub % Pow2(SubBits(group, prio));
    SplitRegister(p, s, group % 8, SubBits(group, prio), prio);
  }

  /** Two codes of one group agree above the binary point exactly when their pre-emption priorities are equal. */
  lemma SamePreemption(group: Word, prio: PrioBits, p1: Word, s1: Word, p2: Word, s2: Word)
    requires p1 < Pow2(PreemptBits(group, prio)) && p2 < Pow2(PreemptBits(group, prio))
    requires s1 < Pow2(SubBits(group, prio)) && s2 < Pow2(SubBits(group, prio))
    ensures var g, e1, e2 := group % 8, Encode(group, p1, s1, prio), Encode(group, p2, s2, prio);
            e1 * Pow2(8 - prio) / Pow2(g + 1) == e2 * Pow2(8 - prio) / Pow2(g + 1) <==> p1 == p2
  {
    BinaryPoint(group, p1, s1, prio);
    BinaryPoint(group, p2, s2, prio);
    Arithmetic.SmallRemainder(p1, Pow2(PreemptBits(group, prio)));
    Arithmetic.SmallRemainder(p2, Pow2(PreemptBits(group, prio)));
    SameMultiple(p1, p2, Pow2(if group % 8 + prio < 7 then 7 - group % 8 - prio else 0));
  }

  /** The register byte r holds the pair on the two sides of the group's binary point. */
  predicate Holds(r: Byte, pair: (nat, nat), group: Word, prio: PrioBits) {
    var g := group % 8;
    && r / Pow2(g + 1) == pair.0 * Pow2(if g + prio < 7 then 7 - g - prio else 0)
    && r % Pow2(g + 1) == pair.1 * Pow2(8 - prio)
  }

  lemma StoredPair(group: Word, preempt: Word, sub: Word, prio: PrioBits)
    ensures var e := Encode(group, preempt, sub, prio);
            var pair := (preempt % Pow2(PreemptBits(group, prio)), sub % Pow2(SubBits(group, prio)));
            && 0 <= e < 0x1_0000_0000 && ReadField(WriteField(e, prio), prio) == e
            && Decode(e, group, prio) == pair && Holds(WriteField(e, prio), pair, group, prio)
  {
    EncodeMeans(group, preempt, sub, prio);
    DecodeEncoded(group, preempt, sub, prio);
    RegisterKeeps(Encode(group, preempt, sub, prio), prio);
    BinaryPoint(group, preempt, sub, prio);
  }

  /** Writing an encoded priority to its register, reading it back and decoding it recovers the masked pair,
      for every interrupt and every priority group; in the register the pair stands on the two sides of the binary
      point. */
  method StoreAndDecode(regs: Registers, irq: int, group: Word, preempt: Word, sub: Word)
    returns (pair: (nat, nat))
    requires irq >= -12 && (irq >= 0 ==> irq < regs.ip.Length) && regs.shp.Length == 12 && regs.ip != regs.shp
    modifies regs.ip, regs.shp
    ensures pair == (preempt % Pow2(PreemptBits(group, regs.prio)), sub % Pow2(SubBits(group, regs.prio)))
    ensures Holds(if irq < 0 then regs.shp[irq + 12] else regs.ip[irq], pair, group, regs.prio)
    ensures forall i :: 0 <= i < regs.ip.Length && i != irq ==> regs.ip[i] == old(regs.ip[i])
    ensures forall i :: 0 <= i < 12 && i - 12 != irq ==> regs.shp[i] == old(regs.shp[i])
  {
    StoredPair(group, preempt, sub, regs.prio);
    var e := Encode(group, preempt, sub, regs.prio);
    regs.SetPriority(irq, e);
    var back := regs.GetPriority(irq);
    pair := Decode(back, group, regs.prio);
  }

  class Registers {
    const prio: PrioBits
    const ip: array<Byte>
    const shp: array<Byte>

    constructor (prio: PrioBits, ip: array<Byte>, shp: array<Byte>)
      ensures this.prio == prio && this.ip == ip && this.shp == shp
    {
      this.prio, this.ip, this.shp := prio, ip, shp;
    }

    /** The register of the interrupt holds the priority in its top bits; the others are unchanged. */
    method SetPriority(irq: int, priority: Word)
      requires irq >= -12 && (irq >= 0 ==> irq < ip.Length) && shp.Length == 12 && ip != shp
      modifies ip, shp
      ensures irq >= 0 ==> ip[..] == old(ip[..])[irq := WriteField(priority, prio)] && shp[..] == old(shp[..])
      ensures irq < 0 ==> shp[..] == old(shp[..])[irq + 12 := WriteField(priority, prio)] && ip[..] == old(ip[..])
    {
      if irq < 0 {
        assert irq % 16 - 4 == irq + 12;
        shp[irq % 16 - 4] := WriteField(priority, prio);
      } else {
        ip[irq] := WriteField(priority, prio);
      }
    }

    method GetPriority(irq: int) returns (priority: int)
      requires irq >= -12 && (irq >= 0 ==> irq < ip.Length) && shp.Length == 12
      ensures priority == ReadField(if irq < 0 then shp[irq + 12] else ip[irq], prio)
    {
      if irq < 0 {
        assert irq % 16 - 4 == irq + 12;
        priority := ReadField(shp[irq % 16 - 4], prio);
      } else {
        priority := ReadField(ip[irq], prio);
      }
    }
  }
}
