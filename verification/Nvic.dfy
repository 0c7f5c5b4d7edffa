/**
 Interrupt priorities: NVIC_EncodePriority, NVIC_DecodePriority, NVIC_SetPriority and NVIC_GetPriority of
 Platform/Boot/gcc/core_cm3.h:1405-1486, and the separate packing in NVIC_Init of
 Platform/Boot/gcc/misc.c:100-132.
*/
module Nvic {
  import opened Arith

  function PreemptBits(group: nat, prioBits: nat): nat {
    var g := group % 8;
    if 7 - g > prioBits then prioBits else 7 - g
  }

  function SubBits(group: nat, prioBits: nat): nat {
    var g := group % 8;
    if g + prioBits < 7 then 0 else g - 7 + prioBits
  }

  /**
   The widths share the implemented bits: the preemption priority gets as many as the group leaves it, at most
   7 - group, and the subpriority the others.
  */
  lemma WidthsShare(group: nat, prioBits: nat)
    ensures PreemptBits(group, prioBits) + SubBits(group, prioBits) == prioBits
    ensures PreemptBits(group, prioBits) <= 7 - group % 8
    ensures PreemptBits(group, prioBits) == 7 - group % 8 || SubBits(group, prioBits) == 0
  {
  }

  /** x & ((1 << n) - 1) */
  function Cut(x: nat, n: nat): (r: nat)
    ensures r == x % Pow2(n) < Pow2(n)
  {
    AndMask(x, n);
    And(x, Pow2(n) - 1)
  }

  function Encode(group: nat, preempt: nat, sub: nat, prioBits: nat): nat {
    var p, s := PreemptBits(group, prioBits), SubBits(group, prioBits);
    Or(Cut(preempt, p) * Pow2(s), Cut(sub, s))
  }

  function ShiftRight(x: nat, s: nat): nat {
    DivNonNegative(x, Pow2(s));
    x / Pow2(s)
  }

  function Decode(priority: nat, group: nat, prioBits: nat): (nat, nat) {
    var p, s := PreemptBits(group, prioBits), SubBits(group, prioBits);
    (Cut(ShiftRight(priority, s), p), Cut(priority, s))
  }

  /** Decoding an encoded priority gives the pair back, cut to the widths of its two fields. */
  lemma RoundTrip(group: nat, preempt: nat, sub: nat, prioBits: nat)
    ensures Decode(Encode(group, preempt, sub, prioBits), group, prioBits)
         == (Cut(preempt, PreemptBits(group, prioBits)), Cut(sub, SubBits(group, prioBits)))
  {
    hide Cut, Or, Pow2, PreemptBits, SubBits;
    var p, s := PreemptBits(group, prioBits), SubBits(group, prioBits);
    var x, y := Cut(preempt, p), Cut(sub, s);
    OrDisjoint(x, y, s);
    Packed(x, y, Pow2(s));
    ModSmall(x, Pow2(p));
  }

  /** Encoded priorities compare as the cut pairs do, the preemption priority first. */
  lemma OrderIsLexicographic(group: nat, p1: nat, s1: nat, p2: nat, s2: nat, prioBits: nat)
    ensures var p, s := PreemptBits(group, prioBits), SubBits(group, prioBits);
            Encode(group, p1, s1, prioBits) < Encode(group, p2, s2, prioBits) <==>
            (Cut(p1, p) < Cut(p2, p) || (Cut(p1, p) == Cut(p2, p) && Cut(s1, s) < Cut(s2, s)))
  {
    hide Cut, Or, Pow2, PreemptBits, SubBits;
    var p, s := PreemptBits(group, prioBits), SubBits(group, prioBits);
    OrDisjoint(Cut(p1, p), Cut(s1, s), s);
    OrDisjoint(Cut(p2, p), Cut(s2, s), s);
    PairOrder(Cut(p1, p), Cut(s1, s), Cut(p2, p), Cut(s2, s), Pow2(s));
  }

  // ---------- the registers ----------

  const PRIO_BITS := 4

  /** (priority << (8 - __NVIC_PRIO_BITS)) & 0xff */
  function PriorityByte(priority: nat): (r: nat)
    ensures r == 16 * (priority % 16) < 256
  {
    PriorityByteIs(priority);
    priority * 16 % U32 % 256
  }

  lemma PriorityByteIs(priority: nat)
    ensures priority * 16 % U32 % 256 == 16 * (priority % 16)
  {
    ModMod(priority * 16, 256, 0x100_0000);
    ModIs(priority * 16, 256, priority / 16, 16 * (priority % 16));
  }

  /** A left shift by a register on this core: only the low byte of the count matters, and 32 or more gives 0. */
  function ShiftLeft(x: nat, count: nat): nat {
    if count % 256 < 32 then x * Pow2(count % 256) % U32 else 0
  }

  /** The interrupts whose priority can be set: all external ones, and the core's from index 4 on. */
  predicate Settable(irq: int) {
    0 <= irq < 240 || (irq < 0 && irq % 16 >= 4)
  }

  /** The register an interrupt number addresses, as the number closest to 0 that addresses it. */
  function Slot(irq: int): (r: int)
    requires Settable(irq)
    ensures -12 <= r < 240 && (irq < 0 <==> r < 0)
  {
    if irq < 0 then irq % 16 - 16 else irq
  }

  class Registers {
    const ip: array<nat>
    const shp: array<nat>
    const iser: array<nat>
    const icer: array<nat>
    var aircr: nat

    ghost predicate Valid()
      reads this, ip, shp
    {
      && ip.Length == 240 && shp.Length == 12 && iser.Length == 8 && icer.Length == 8
      && iser != icer && ip != iser && ip != icer && shp != ip && shp != iser && shp != icer
      && (forall i :: 0 <= i < 240 ==> ip[i] < 256) && forall i :: 0 <= i < 12 ==> shp[i] < 256
    }

    constructor (group: nat)
      ensures Valid() && fresh(ip) && fresh(shp) && fresh(iser) && fresh(icer) && aircr == group
    {
      ip, shp, iser, icer := new nat[240](i => 0), new nat[12](i => 0), new nat[8](i => 0), new nat[8](i => 0);
      aircr := group;
    }

    /** The priority grouping in bits 8 to 10. */
    ghost function Group(): nat
      reads this
    {
      aircr / 256 % 8
    }

    /** The priority byte of an interrupt. */
    ghost function Byte(irq: int): nat
      requires Valid() && Settable(irq)
      reads this, ip, shp
    {
      if irq < 0 then shp[irq % 16 - 4] else ip[irq]
    }

    method SetPriority(irq: int, priority: nat)
      requires Valid() && Settable(irq)
      modifies ip, shp
      ensures Valid()
      ensures forall j :: Settable(j) ==>
                Byte(j) == if Slot(j) == Slot(irq) then PriorityByte(priority) else old(Byte(j))
    {
      if irq < 0 {
        shp[irq % 16 - 4] := PriorityByte(priority);
      } else {
        ip[irq] := PriorityByte(priority);
      }
    }

    /** The upper four bits of the byte. */
    method GetPriority(irq: int) returns (r: nat)
      requires Valid() && Settable(irq)
      ensures r < 16 && 16 * r <= Byte(irq) < 16 * r + 16
    {
      if irq < 0 {
        r := shp[irq % 16 - 4] / 16;
      } else {
        r := ip[irq] / 16;
      }
    }

    /** NVIC_Init packs the two priorities on its own, without masking the preemption priority. */
    method Init(channel: nat, preempt: nat, sub: nat, enable: bool)
      requires Valid() && channel < 240 && preempt < 256 && sub < 256
      modifies ip, iser, icer
      ensures Valid()
      ensures enable ==>
                && ip[..] == old(ip[..])[channel := InitByte(Group(), preempt, sub)]
                && iser[..] == old(iser[..])[channel / 32 := Pow2(channel % 32)] && icer[..] == old(icer[..])
      ensures !enable ==>
                && ip[..] == old(ip[..]) && iser[..] == old(iser[..])
                && icer[..] == old(icer[..])[channel / 32 := Pow2(channel % 32)]
    {
      hide Pow2, Or, And, Encode, ShiftLeft;
      if enable {
        var tmppriority := (0x700 - aircr / 256 % 8 * 256) / 256;
        var tmppre := (4 - tmppriority) % U32;
        var tmpsub := 0x0F / Pow2(tmppriority);
        tmppriority := Or(ShiftLeft(preempt, tmppre), And(sub, tmpsub)) * 16 % 256;
        InitPacking(Group(), preempt, sub);
        ip[channel] := tmppriority;
        iser[channel / 32] := Pow2(channel % 32);
      } else {
        icer[channel / 32] := Pow2(channel % 32);
      }
    }
  }

  /** What NVIC_Init stores: the encoded priority for groups 3 to 7, and 0 for groups 0 to 2. */
  function InitByte(group: nat, preempt: nat, sub: nat): (r: nat)
    ensures r < 256
  {
    if group >= 3 then PriorityByte(Encode(group, preempt, sub, PRIO_BITS)) else 0
  }

  /** The packing of NVIC_Init in terms of NVIC_EncodePriority, for every group. */
  lemma InitPacking(g: nat, preempt: nat, sub: nat)
    requires g <= 7 && preempt < 256 && sub < 256
    ensures Or(ShiftLeft(preempt, (g - 3) % U32), And(sub, 0x0F / Pow2(7 - g))) * 16 % 256 == InitByte(g, preempt, sub)
  {
    hide Or, And, Cut, Pow2, Encode, ShiftLeft, PriorityByte;
    if g >= 3 {
      PackedAsEncoded(g, preempt, sub);
      ShiftInside(preempt, g - 3);
    } else {
      NothingPacked(g, preempt, sub);
    }
  }

  lemma ShiftInside(x: nat, n: nat)
    requires x < 256 && n <= 4
    ensures ShiftLeft(x, n % U32) == x * Pow2(n)
  {
    SmallPowers();
    hide Pow2;
    ModSmall(n, U32);
    ModSmall(n, 256);
    assert Pow2(n) <= 16;
    Product(x, Pow2(n));
    ModSmall(x * Pow2(n), U32);
  }

  lemma Product(x: nat, p: nat)
    requires x < 256 && p <= 16
    ensures 0 <= x * p <= 4096
  {
  }

  /** Groups 0 to 2 shift by a count that wrapped below 0, and mask with 0x0F >> 5 or more. */
  lemma NothingPacked(g: nat, preempt: nat, sub: nat)
    requires g <= 2
    ensures Or(ShiftLeft(preempt, (g - 3) % U32), And(sub, 0x0F / Pow2(7 - g))) == 0
  {
    ModIs(g - 3, U32, -1, U32 + g - 3);
    ModIs(U32 + g - 3, 256, 0xff_ffff, 253 + g);
    SmallPowers();
    hide Pow2;
    assert 0x0F / Pow2(7 - g) == 0 by {
      if g == 0 {} else if g == 1 {} else {}
    }
    AndZero(sub);
  }

  lemma PackedAsEncoded(g: nat, preempt: nat, sub: nat)
    requires 3 <= g <= 7
    ensures Or(preempt * Pow2(g - 3), And(sub, 0x0F / Pow2(7 - g))) * 16 % 256
         == PriorityByte(Encode(g, preempt, sub, PRIO_BITS))
  {
    hide Or, And, Cut, PriorityByte, Pow2;
    var p, s := 7 - g, g - 3;
    NibbleSplit(p, s);
    AndMask(sub, s);
    var y := sub % Pow2(s);
    OrDisjoint(preempt, y, s);
    OrDisjoint(preempt % Pow2(p), y, s);
    assert PreemptBits(g, PRIO_BITS) == p && SubBits(g, PRIO_BITS) == s;
    SameByte(preempt, y, Pow2(p), Pow2(s));
    NibbleUp(preempt % Pow2(p) * Pow2(s) + y);
  }

  lemma NibbleSplit(p: nat, s: nat)
    requires p + s == 4
    ensures 0x0F / Pow2(p) == Pow2(s) - 1 && Pow2(p) * Pow2(s) == 16
  {
    SmallPowers();
    hide Pow2;
    if p == 0 {} else if p == 1 {} else if p == 2 {} else if p == 3 {} else {}
  }

  lemma NibbleUp(v: nat)
    ensures v * 16 % 256 == PriorityByte(v)
  {
    ModIs(v * 16, 256, v / 16, 16 * (v % 16));
  }

  lemma SameByte(x: nat, y: nat, a: nat, b: nat)
    requires a > 0 && b > 0 && a * b == 16
    ensures (x * b + y) * 16 % 256 == (x % a * b + y) * 16 % 256
  {
    var q, r := x / a, x % a;
    assert x * b == q * (a * b) + r * b;
    assert (x * b + y) * 16 == q * 256 + (r * b + y) * 16;
    var v := (r * b + y) * 16;
    ModIs(q * 256 + v, 256, q + v / 256, v % 256);
  }

  /** The two packings agree exactly for groups 3 to 7 and for preemption priorities that encode as 0. */
  lemma PackingsAgree(g: nat, preempt: nat, sub: nat)
    requires g <= 7
    ensures InitByte(g, preempt, sub) == PriorityByte(Encode(g, preempt, sub, PRIO_BITS))
       <==> g >= 3 || preempt % 16 == 0
  {
    hide Or, Cut, PriorityByte, Pow2;
    if g < 3 {
      SmallPowers();
      assert PreemptBits(g, PRIO_BITS) == 4 && SubBits(g, PRIO_BITS) == 0;
      OrZero(preempt % 16);
    }
  }

  /** What NVIC_SetPriority stores, NVIC_GetPriority reads back cut to four bits; other interrupts keep theirs. */
  method SetThenGet(regs: Registers, irq: int, priority: nat, other: int) returns (r: nat, before: nat, after: nat)
    requires regs.Valid() && Settable(irq) && Settable(other)
    modifies regs.ip, regs.shp
    ensures regs.Valid()
    ensures r == priority % 16
    ensures Slot(other) != Slot(irq) ==> before == after
  {
    hide PriorityByte;
    before := regs.GetPriority(other);
    regs.SetPriority(irq, priority);
    r := regs.GetPriority(irq);
    after := regs.GetPriority(other);
  }

  /**
   What NVIC_Init stores, NVIC_GetPriority and NVIC_DecodePriority read back for groups 3 to 7; in groups
   0 to 2 every interrupt gets priority 0.
  */
  method InitThenRead(regs: Registers, channel: nat, preempt: nat, sub: nat) returns (pair: (nat, nat))
    requires regs.Valid() && channel < 240 && preempt < 256 && sub < 256
    modifies regs.ip, regs.iser, regs.icer
    ensures regs.Valid()
    ensures var p, s := PreemptBits(regs.Group(), PRIO_BITS), SubBits(regs.Group(), PRIO_BITS);
            && pair == (if regs.Group() >= 3 then (Cut(preempt, p), Cut(sub, s)) else (0, 0))
            && (pair == (Cut(preempt, p), Cut(sub, s)) <==> regs.Group() >= 3 || preempt % 16 == 0)
  {
    hide Encode, Decode, Cut, PriorityByte;
    regs.Init(channel, preempt, sub, true);
    var priority := regs.GetPriority(channel);
    var group := regs.aircr / 256 % 8;
    if group >= 3 {
      EncodedFits(group, preempt, sub);
      RoundTrip(group, preempt, sub, PRIO_BITS);
    } else {
      DecodedZero(group);
      SmallPowers();
    }
    pair := Decode(priority, group, PRIO_BITS);
  }

  lemma DecodedZero(g: nat)
    requires g < 3
    ensures Decode(0, g, PRIO_BITS) == (0, 0)
  {
    ModSmall(0, Pow2(4));
  }

  lemma EncodedFits(g: nat, preempt: nat, sub: nat)
    requires 3 <= g <= 7
    ensures Encode(g, preempt, sub, PRIO_BITS) < 16
  {
    hide Or, Cut;
    var p, s := 7 - g, g - 3;
    SmallPowers();
    OrDisjoint(Cut(preempt, p), Cut(sub, s), s);
    if g == 3 {} else if g == 4 {} else if g == 5 {} else if g == 6 {} else {}
  }
}
