/**
 Interrupt priorities: the grouping code of NVIC_EncodePriority and NVIC_DecodePriority, and the registers
 __NVIC_SetPriority writes, for a device that implements 1 to 8 priority bits.
 */
module Nvic {
  import opened Arith

  /** PreemptPriorityBits for priority group `g` on a device with `n` bits. */
  function PreemptBits(n: nat, g: nat): nat
    requires n <= 8
  {
    var grp := g % 8;
    if 7 - grp > n then n else 7 - grp
  }

  /** SubPriorityBits. */
  function SubBits(n: nat, g: nat): nat
    requires n <= 8
  {
    var grp := g % 8;
    if grp + n < 7 then 0 else grp - 7 + n
  }

  /** NVIC_EncodePriority: arguments are masked to their widths, the preempt field sits above the sub field. */
  function Encode(n: nat, g: nat, preempt: nat, sub: nat): nat
    requires n <= 8
  {
    preempt % Pow2(PreemptBits(n, g)) * Pow2(SubBits(n, g)) + sub % Pow2(SubBits(n, g))
  }

  datatype Levels = Levels(preempt: nat, sub: nat)

  /** NVIC_DecodePriority. */
  function Decode(n: nat, g: nat, priority: nat): Levels
    requires n <= 8
  {
    FloorLower(priority, 0, Pow2(SubBits(n, g)));
    Levels(priority / Pow2(SubBits(n, g)) % Pow2(PreemptBits(n, g)), priority % Pow2(SubBits(n, g)))
  }

  lemma Widths(n: nat, g: nat)
    requires 1 <= n <= 8
    ensures PreemptBits(n, g) + SubBits(n, g) == n
    ensures SubBits(n, g) == if n + g % 8 <= 7 then 0 else n + g % 8 - 7
  {
  }

  /** The two widths always share out the implemented bits, and every code fits them. */
  lemma WidthsAddUp(n: nat, g: nat, preempt: nat, sub: nat)
    requires 1 <= n <= 8
    ensures PreemptBits(n, g) + SubBits(n, g) == n
    ensures SubBits(n, g) == if n + g % 8 <= 7 then 0 else n + g % 8 - 7
    ensures Encode(n, g, preempt, sub) < Pow2(n)
  {
    Widths(n, g);
    EncodeFits(n, g, preempt, sub);
  }

  lemma EncodeFits(n: nat, g: nat, preempt: nat, sub: nat)
    requires 1 <= n <= 8
    ensures Encode(n, g, preempt, sub) < Pow2(n)
  {
    WidthProduct(n, g);
    FieldsFit(preempt, sub, Pow2(PreemptBits(n, g)), Pow2(SubBits(n, g)));
  }

  lemma WidthProduct(n: nat, g: nat)
    requires 1 <= n <= 8
    ensures Pow2(PreemptBits(n, g)) * Pow2(SubBits(n, g)) == Pow2(n)
  {
    Widths(n, g);
    Pow2Add(PreemptBits(n, g), SubBits(n, g));
  }

  lemma FieldsFit(preempt: nat, sub: nat, p: nat, s: nat)
    requires p > 0 && s > 0
    ensures preempt % p * s + sub % s < p * s
  {
    TwoDigitBound(preempt % p, sub % s, p, s);
  }

  /** Decoding undoes encoding, up to the masking of the arguments. */
  lemma DecodeEncode(n: nat, g: nat, preempt: nat, sub: nat)
    requires 1 <= n <= 8
    ensures Decode(n, g, Encode(n, g, preempt, sub)) ==
            Levels(preempt % Pow2(PreemptBits(n, g)), sub % Pow2(SubBits(n, g)))
  {
    var p, s := Pow2(PreemptBits(n, g)), Pow2(SubBits(n, g));
    DivUnique(Encode(n, g, preempt, sub), preempt % p, sub % s, s);
    SmallMod(preempt % p, p);
  }

  /** Encoding undoes decoding, up to the implemented bits. */
  lemma EncodeDecode(n: nat, g: nat, priority: nat)
    requires 1 <= n <= 8
    ensures var d := Decode(n, g, priority); Encode(n, g, d.preempt, d.sub) == priority % Pow2(n)
  {
    var p, s := PreemptBits(n, g), SubBits(n, g);
    WidthProduct(n, g);
    TwoDigitSplit(priority, Pow2(p), Pow2(s));
    SmallMod(priority / Pow2(s) % Pow2(p), Pow2(p));
    SmallMod(priority % Pow2(s), Pow2(s));
  }

  /** A smaller number is a more urgent priority: codes compare as (preempt, sub) pairs do, preempt level first. */
  lemma OrderIsLexicographic(n: nat, g: nat, a: Levels, b: Levels)
    requires 1 <= n <= 8
    requires a.preempt < Pow2(PreemptBits(n, g)) && a.sub < Pow2(SubBits(n, g))
    requires b.preempt < Pow2(PreemptBits(n, g)) && b.sub < Pow2(SubBits(n, g))
    ensures Encode(n, g, a.preempt, a.sub) < Encode(n, g, b.preempt, b.sub)
            <==> a.preempt < b.preempt || (a.preempt == b.preempt && a.sub < b.sub)
  {
    var p, s := Pow2(PreemptBits(n, g)), Pow2(SubBits(n, g));
    SmallMod(a.preempt, p);
    SmallMod(b.preempt, p);
    SmallMod(a.sub, s);
    SmallMod(b.sub, s);
    TwoDigitOrder(a.preempt, a.sub, b.preempt, b.sub, s);
  }

  // ---------- Registers ----------

  /** Device interrupts, and the exceptions whose priority is configurable. */
  type Irq = i: int | -12 <= i < 240

  /** `((uint32_t)IRQn & 0xF) - 4` for a negative interrupt number: exception `16 + irq` sits at byte `16 + irq - 4`. */
  function ShprIndex(irq: Irq): (k: nat)
    requires irq < 0
    ensures k < 12 && k == 16 + irq - 4
  {
    irq % 16 - 4
  }

  /** `(priority << (8 - n)) & 0xFF`. */
  function ToRegister(n: nat, priority: nat): nat
    requires 1 <= n <= 8
  {
    priority * Pow2(8 - n) % 256
  }

  function FromRegister(n: nat, reg: nat): nat
    requires 1 <= n <= 8
  {
    FloorLower(reg, 0, Pow2(8 - n));
    reg / Pow2(8 - n)
  }

  /** A priority survives the register, up to the implemented bits. */
  lemma RegisterRoundTrip(n: nat, priority: nat)
    requires 1 <= n <= 8
    ensures FromRegister(n, ToRegister(n, priority)) == priority % Pow2(n)
    ensures ToRegister(n, priority) == priority % Pow2(n) * Pow2(8 - n)
    ensures ToRegister(n, priority) < 256
  {
    Pow2Add(n, 8 - n);
    Pow2Values();
    ScaleMod(priority, Pow2(n), Pow2(8 - n));
  }

  class PriorityRegisters {
    const bits: nat
    var ip: seq<nat>
    var shpr: seq<nat>

    /** Reset: every priority is zero. */
    constructor (bits: nat)
      requires 1 <= bits <= 8
      ensures Valid() && this.bits == bits && forall irq: Irq :: Stored(irq) == 0
    {
      this.bits, ip, shpr := bits, seq(240, _ => 0), seq(12, _ => 0);
    }

    ghost predicate Valid()
      reads this
    {
      1 <= bits <= 8 && |ip| == 240 && |shpr| == 12
    }

    ghost function Stored(irq: Irq): nat
      requires Valid()
      reads this
    {
      if irq >= 0 then ip[irq] else shpr[ShprIndex(irq)]
    }

    /** __NVIC_SetPriority: changes the one register of this interrupt, and no other interrupt's. */
    method SetPriority(irq: Irq, priority: nat)
      requires Valid()
      modifies this`ip, this`shpr
      ensures Valid() && Stored(irq) == ToRegister(bits, priority)
      ensures forall other: Irq :: other != irq ==> Stored(other) == old(Stored(other))
      ensures irq >= 0 ==> ip == old(ip)[irq := ToRegister(bits, priority)] && shpr == old(shpr)
      ensures irq < 0 ==> shpr == old(shpr)[irq + 12 := ToRegister(bits, priority)] && ip == old(ip)
    {
      if irq >= 0 {
        ip := ip[irq := ToRegister(bits, priority)];
      } else {
        shpr := shpr[ShprIndex(irq) := ToRegister(bits, priority)];
      }
    }

    /** __NVIC_GetPriority. */
    method GetPriority(irq: Irq) returns (priority: nat)
      requires Valid()
      ensures priority == FromRegister(bits, if irq >= 0 then ip[irq] else shpr[irq + 12])
    {
      if irq >= 0 {
        priority := FromRegister(bits, ip[irq]);
      } else {
        priority := FromRegister(bits, shpr[ShprIndex(irq)]);
      }
    }
  }

  /**
   What the grouping is for: the hardware compares the register bits above bit `g` to decide preemption (section B1.5.4
   of the Armv7-M Architecture Reference Manual), and that comparison is the one of the decoded preempt levels.
   */
  lemma GroupDecidesPreemption(n: nat, g: nat, a: nat, b: nat)
    requires 1 <= n <= 8 && g < 8 && a < Pow2(n) && b < Pow2(n)
    ensures ToRegister(n, a) / Pow2(g + 1) < ToRegister(n, b) / Pow2(g + 1)
            <==> Decode(n, g, a).preempt < Decode(n, g, b).preempt
  {
    GroupField(n, g, a);
    GroupField(n, g, b);
    var spare := if 7 - g > n then 7 - g - n else 0;
    ScaledOrder(Decode(n, g, a).preempt, Decode(n, g, b).preempt, Pow2(spare));
  }

  /** The group field of a register holds the preempt level, above as many zero bits as the device leaves out of it. */
  lemma GroupField(n: nat, g: nat, priority: nat)
    requires 1 <= n <= 8 && g < 8 && priority < Pow2(n)
    ensures ToRegister(n, priority) / Pow2(g + 1) ==
            Decode(n, g, priority).preempt * Pow2(if 7 - g > n then 7 - g - n else 0)
  {
    WholeRegister(n, priority);
    LevelIsQuotient(n, g, priority);
    Widths(n, g);
    if 7 - g > n { NarrowField(n, g, priority); } else { WideField(n, g, priority, SubBits(n, g)); }
  }

  lemma WholeRegister(n: nat, priority: nat)
    requires 1 <= n <= 8 && priority < Pow2(n)
    ensures ToRegister(n, priority) == priority * Pow2(8 - n)
  {
    RegisterRoundTrip(n, priority);
    SmallMod(priority, Pow2(n));
  }

  lemma NarrowField(n: nat, g: nat, priority: nat)
    requires n <= 8 && n < 7 - g
    ensures priority * Pow2(8 - n) / Pow2(g + 1) == priority * Pow2(7 - g - n)
  {
    Pow2Add(7 - g - n, g + 1);
    ExactQuotient(priority, Pow2(7 - g - n), Pow2(g + 1));
  }

  lemma WideField(n: nat, g: nat, priority: nat, s: nat)
    requires n <= 8 && s == n + g - 7
    ensures priority * Pow2(8 - n) / Pow2(g + 1) == priority / Pow2(s)
  {
    Pow2Add(s, 8 - n);
    ScaledQuotient(priority, Pow2(s), Pow2(8 - n));
  }

  /** The preempt level of an implemented priority is what lies above the sub-priority bits. */
  lemma LevelIsQuotient(n: nat, g: nat, priority: nat)
    requires 1 <= n <= 8 && priority < Pow2(n)
    ensures Decode(n, g, priority).preempt == priority / Pow2(SubBits(n, g))
  {
    WidthProduct(n, g);
    SmallQuotient(priority, Pow2(PreemptBits(n, g)), Pow2(SubBits(n, g)));
  }

  lemma SmallQuotient(x: nat, p: nat, s: nat)
    requires p > 0 && s > 0 && x < p * s
    ensures x / s % p == x / s
  {
    FloorUpper(x, p - 1, s);
    FloorLower(x, 0, s);
    SmallMod(x / s, p);
  }

  lemma ExactQuotient(x: nat, k: nat, d: nat)
    requires d > 0
    ensures x * (k * d) / d == x * k
  {
    assert x * (k * d) == x * k * d;
    DivUnique(x * (k * d), x * k, 0, d);
  }

  /** Scaling both sides of a division changes nothing. */
  lemma ScaledQuotient(x: nat, d: nat, k: nat)
    requires d > 0 && k > 0
    ensures d * k > 0 && x * k / (d * k) == x / d
  {
    var q, r := x / d, x % d;
    assert x == q * d + r;
    MulMonoStrict(0, d, k);
    MulMonoStrict(r, d, k);
    MulMono(0, r, k);
    assert x * k == q * (d * k) + r * k;
    DivUnique(x * k, q, r * k, d * k);
  }

  lemma ScaledOrder(x: nat, y: nat, k: nat)
    requires k > 0
    ensures x * k < y * k <==> x < y
  {
    if x < y { MulMonoStrict(x, y, k); } else { MulMono(y, x, k); }
  }

  /** Encode, set, get, decode: both levels come back, up to the masking of the arguments, and in the same order. */
  lemma LevelsSurviveTheRegister(n: nat, g: nat, preempt: nat, sub: nat)
    requires 1 <= n <= 8
    ensures FromRegister(n, ToRegister(n, Encode(n, g, preempt, sub))) == Encode(n, g, preempt, sub)
    ensures Decode(n, g, FromRegister(n, ToRegister(n, Encode(n, g, preempt, sub)))) ==
            Levels(preempt % Pow2(PreemptBits(n, g)), sub % Pow2(SubBits(n, g)))
  {
    var code := Encode(n, g, preempt, sub);
    RegisterRoundTrip(n, code);
    WidthsAddUp(n, g, preempt, sub);
    SmallMod(code, Pow2(n));
    DecodeEncode(n, g, preempt, sub);
  }
}
