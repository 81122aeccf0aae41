/**
 C integer arithmetic as CMSIS/arm_math.h uses it. Values are mathematical integers; a cast to a narrower type is an
 explicit wrap, `x >> n` on a signed value is floor division by `2^n`, and the saturating helpers are written as the
 code writes them and proved to be clamps.
 */
module FixedPoint {
  import opened Arith

  type Q7 = x: int | -0x80 <= x <= 0x7F
  type Q15 = x: int | -0x8000 <= x <= 0x7FFF
  type Q31 = x: int | -0x8000_0000 <= x <= 0x7FFF_FFFF
  type Q63 = x: int | -0x8000_0000_0000_0000 <= x <= 0x7FFF_FFFF_FFFF_FFFF

  function ToU32(x: int): nat { x % 0x1_0000_0000 }

  function ToQ31(x: int): Q31 {
    var u := x % 0x1_0000_0000;
    if u >= 0x8000_0000 then u - 0x1_0000_0000 else u
  }

  function ToQ15(x: int): Q15 {
    var u := x % 0x1_0000;
    if u >= 0x8000 then u - 0x1_0000 else u
  }

  function ToQ7(x: int): Q7 {
    var u := x % 0x100;
    if u >= 0x80 then u - 0x100 else u
  }

  function ToQ63(x: int): Q63 {
    var u := x % 0x1_0000_0000_0000_0000;
    if u >= 0x8000_0000_0000_0000 then u - 0x1_0000_0000_0000_0000 else u
  }

  /** A cast changes nothing in range. */
  lemma NarrowExact(v: int)
    ensures -0x8000 <= v <= 0x7FFF ==> ToQ15(v) == v
    ensures -0x8000_0000 <= v <= 0x7FFF_FFFF ==> ToQ31(v) == v && ToQ31(ToU32(v)) == v
  {
  }

  lemma NarrowExactQ63(v: Q63)
    ensures ToQ63(v) == v
  {
  }

  lemma NarrowExactQ7(v: int)
    requires -0x80 <= v <= 0x7F
    ensures ToQ7(v) == v
  {
  }

  function Clamp(x: int, lo: int, hi: int): int {
    if x < lo then lo else if x > hi then hi else x
  }

  /** `m ^ s` for a sign word `s` that is 0 or -1. */
  function XorSign(m: int, s: int): int { if s == -1 then -1 - m else m }

  /** clip_q63_to_q31, CMSIS/arm_math.h:670-675: compare the high word with the sign of the low word. */
  function ClipQ63ToQ31(x: Q63): int {
    if ToQ31(x / 0x1_0000_0000) != ToQ31(x) / 0x8000_0000
    then XorSign(0x7FFF_FFFF, ToQ31(x / 0x8000_0000_0000_0000))
    else ToQ31(x)
  }

  /** clip_q31_to_q15, CMSIS/arm_math.h:700-705. */
  function ClipQ31ToQ15(x: Q31): int {
    if x / 0x1_0000 != x / 0x8000 then XorSign(0x7FFF, ToQ15(x / 0x8000_0000)) else ToQ15(x)
  }

  /** The clip is the clamp to the 32-bit range, on every 64-bit value. */
  lemma ClipQ63IsClamp(x: Q63)
    ensures ClipQ63ToQ31(x) == Clamp(x, -0x8000_0000, 0x7FFF_FFFF)
  {
    var hi, lo := x / 0x1_0000_0000, x % 0x1_0000_0000;
    assert x == hi * 0x1_0000_0000 + lo;
    assert ToQ31(hi) == hi;
    if lo >= 0x8000_0000 {
      assert ToQ31(x) / 0x8000_0000 == -1;
    } else {
      assert ToQ31(x) / 0x8000_0000 == 0;
    }
    if x >= 0 { assert x / 0x8000_0000_0000_0000 == 0; } else { assert x / 0x8000_0000_0000_0000 == -1; }
  }

  /** The clip is the clamp to the 16-bit range, on every 32-bit value. */
  lemma ClipQ31IsClamp(x: Q31)
    ensures ClipQ31ToQ15(x) == Clamp(x, -0x8000, 0x7FFF)
  {
  }

  /** __QADD and __QSUB, CMSIS/arm_math.h:1055-1071. */
  function QAdd(x: Q31, y: Q31): int { ClipQ63ToQ31(x + y) }
  function QSub(x: Q31, y: Q31): int { ClipQ63ToQ31(x - y) }

  lemma QAddSaturates(x: Q31, y: Q31)
    ensures QAdd(x, y) == Clamp(x + y, -0x8000_0000, 0x7FFF_FFFF)
    ensures QSub(x, y) == Clamp(x - y, -0x8000_0000, 0x7FFF_FFFF)
  {
    ClipQ63IsClamp(x + y);
    ClipQ63IsClamp(x - y);
  }

  /** __SSAT, CMSIS/arm_math.h:605-621. */
  function SSat(val: Q31, sat: nat): Q31 {
    if 1 <= sat <= 32 then
      var max := Pow2(sat - 1) - 1;
      if val > max then ToQ31(max) else if val < -1 - max then ToQ31(-1 - max) else val
    else val
  }

  /** __SSAT clamps to `sat` bits for every legal width, and passes the value for any other. */
  lemma SSatIsClamp(val: Q31, sat: nat)
    ensures 1 <= sat <= 32 ==> SSat(val, sat) == Clamp(val, -(Pow2(sat - 1) as int), Pow2(sat - 1) - 1)
    ensures !(1 <= sat <= 32) ==> SSat(val, sat) == val
  {
    if 1 <= sat <= 32 {
      Pow2Mono(sat - 1, 31);
      Pow2Values();
      NarrowExact(Pow2(sat - 1) - 1);
      NarrowExact(-(Pow2(sat - 1) as int));
    }
  }

  lemma SSat16IsClamp(val: Q31)
    ensures SSat(val, 16) == Clamp(val, -0x8000, 0x7FFF)
  {
    Pow2Values();
  }

  /** Clamping is monotone and brings no two values further apart. */
  lemma ClampLipschitz(x: int, y: int, lo: int, hi: int)
    requires x <= y && lo <= hi
    ensures 0 <= Clamp(y, lo, hi) - Clamp(x, lo, hi) <= y - x
  {
  }

  /** __CLZ, CMSIS/arm_math.h:590-603: the mask runs down from bit 31 until it meets a set bit. */
  method CountLeadingZeros(data: nat) returns (count: nat)
    requires data < 0x1_0000_0000
    ensures data == 0 ==> count == 32
    ensures data > 0 ==> count <= 31 && Pow2(31 - count) <= data < Pow2(32 - count)
  {
    if data == 0 { return 32; }
    count := 0;
    var mask := 0x8000_0000;
    Pow2Values();
    while data / mask % 2 == 0
      invariant count <= 31 && mask == Pow2(31 - count)
      invariant data < 2 * mask
      decreases 31 - count
    {
      BitClear(data, mask);
      assert mask != 1;
      count := count + 1;
      mask := mask / 2;
    }
    BitClear(data, mask);
  }

  /** Below twice the mask, the tested bit is the top one. */
  lemma BitClear(data: nat, mask: nat)
    requires 0 < mask && data < 2 * mask
    ensures data / mask % 2 == 0 <==> data < mask
  {
  }
}
