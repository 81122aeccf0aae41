/**
 Linear interpolation in a table, arm_linear_interp_q15 and arm_linear_interp_q7 (CMSIS/arm_math.h:5651-5693,
 5708-5750).
 The coordinate is in 12.20 format. The two weights are `0xFFFFF - fract` and `fract`: they add up to one unit less than
 `2^20`, which is what the exact results below are about.
 */
module LinearInterp {
  import opened Arith
  import opened FixedPoint

  /** The weighted sum of two neighbours, before the final shift by 20. */
  function Mix(y0: int, y1: int, fract: int): int { y0 * (0xF_FFFF - fract) + y1 * fract }

  function Blend(y0: int, y1: int, fract: int): int { Mix(y0, y1, fract) / 0x10_0000 }

  /** arm_linear_interp_q15; `(x & 0xFFF00000) >> 20` is the floor of `x / 2^20`. */
  function LinearQ15(table: seq<Q15>, x: Q31): Q15
    requires 1 <= |table| <= 0x8000_0000
  {
    var index := x / 0x10_0000;
    if index >= |table| - 1 then table[|table| - 1]
    else if index < 0 then table[0]
    else ToQ15(Blend(table[index], table[index + 1], x % 0x10_0000))
  }

  /** arm_linear_interp_q7; the clamps come in the other order and the index is unsigned. */
  function LinearQ7(table: seq<Q7>, x: Q31): Q7
    requires 1 <= |table| <= 0x8000_0000
  {
    if x < 0 then table[0]
    else
      var index := x / 0x10_0000 % 0x1000;
      if index >= |table| - 1 then table[|table| - 1]
      else ToQ7(Blend(table[index], table[index + 1], x % 0x10_0000))
  }

  /** What a weight sum of `2^20 - 1` makes of a value: positive values lose one unit, others pass. */
  function Lower(m: int): int { if m > 0 then m - 1 else m }

  lemma ScaledFloor(m: int)
    requires -0x10_0000 < m <= 0x10_0000
    ensures m * 0xF_FFFF / 0x10_0000 == Lower(m)
  {
  }

  /** The weighted sum moves from `y0` to `y1` in steps of `y1 - y0`. */
  lemma MixIsLinear(y0: int, y1: int, fract: int)
    ensures Mix(y0, y1, fract) == y0 * 0xF_FFFF + (y1 - y0) * fract
  {
  }

  lemma MixBetween(lo: int, hi: int, y0: int, y1: int, fract: int)
    requires lo <= y0 <= hi && lo <= y1 <= hi && 0 <= fract <= 0xF_FFFF
    ensures lo * 0xF_FFFF <= Mix(y0, y1, fract) <= hi * 0xF_FFFF
  {
    MulMono(y0, hi, 0xF_FFFF - fract);
    MulMono(y1, hi, fract);
    MulMono(lo, y0, 0xF_FFFF - fract);
    MulMono(lo, y1, fract);
    MixIsLinear(hi, hi, fract);
    MixIsLinear(lo, lo, fract);
  }

  /** The interpolated value lies between its neighbours, each lowered; so no narrowing cast can overflow. */
  lemma BlendBetween(lo: int, hi: int, y0: int, y1: int, fract: int)
    requires -0x8000 <= lo <= y0 <= hi <= 0x7FFF && lo <= y1 <= hi && 0 <= fract <= 0xF_FFFF
    ensures Lower(lo) <= Blend(y0, y1, fract) <= Lower(hi)
  {
    MixBetween(lo, hi, y0, y1, fract);
    ScaledFloor(lo);
    ScaledFloor(hi);
    FloorMono(lo * 0xF_FFFF, Mix(y0, y1, fract), 0x10_0000);
    FloorMono(Mix(y0, y1, fract), hi * 0xF_FFFF, 0x10_0000);
  }

  /** The two routines agree on every table of 1.7 values and every coordinate. */
  lemma Q7AgreesWithQ15(table: seq<Q7>, x: Q31)
    requires 1 <= |table| <= 0x8000_0000
    ensures LinearQ7(table, x) == LinearQ15(table, x)
  {
    var index := x / 0x10_0000;
    if 0 <= x && index < |table| - 1 {
      SmallMod(index, 0x1000);
      var y0: int, y1: int, f := table[index], table[index + 1], x % 0x10_0000;
      var lo, hi := if y0 < y1 then y0 else y1, if y0 < y1 then y1 else y0;
      BlendBetween(lo, hi, y0, y1, f);
      NarrowExact(Blend(y0, y1, f));
      NarrowExactQ7(Blend(y0, y1, f));
    }
  }

  /** The result lies between the lowered smaller and the larger of the table values it reads. */
  lemma Between(table: seq<Q15>, x: Q31, lo: Q15, hi: Q15)
    requires 1 <= |table| <= 0x8000_0000 && forall i :: 0 <= i < |table| ==> lo <= table[i] <= hi
    ensures Lower(lo) <= LinearQ15(table, x) <= hi
  {
    var index := x / 0x10_0000;
    if 0 <= index < |table| - 1 {
      BlendBetween(lo, hi, table[index], table[index + 1], x % 0x10_0000);
      NarrowExact(Blend(table[index], table[index + 1], x % 0x10_0000));
    }
  }

  /** Outside the table the nearer end is returned as it is: the last entry from its knot on, the first below zero. */
  lemma ClampsToEnds(table: seq<Q15>, x: Q31)
    requires 1 <= |table| <= 0x8000_0000
    ensures x / 0x10_0000 >= |table| - 1 ==> LinearQ15(table, x) == table[|table| - 1]
    ensures x < 0 ==> LinearQ15(table, x) == table[0]
  {
  }

  /** Inside a segment the result is the floored weighted sum, and lies between the lowered neighbours. */
  lemma InSegment(table: seq<Q15>, x: Q31)
    requires 1 <= |table| <= 0x8000_0000 && 0 <= x / 0x10_0000 < |table| - 1
    ensures var i := x / 0x10_0000;
      && LinearQ15(table, x) == Blend(table[i], table[i + 1], x % 0x10_0000)
      && (table[i] <= table[i + 1] ==> Lower(table[i]) <= LinearQ15(table, x) <= Lower(table[i + 1]))
      && (table[i + 1] <= table[i] ==> Lower(table[i + 1]) <= LinearQ15(table, x) <= Lower(table[i]))
  {
    var i, f := x / 0x10_0000, x % 0x10_0000;
    var y0, y1 := table[i], table[i + 1];
    if y0 <= y1 { BlendBetween(y0, y1, y0, y1, f); } else { BlendBetween(y1, y0, y0, y1, f); }
    NarrowExact(Blend(y0, y1, f));
  }

  /** At a knot below the last, the table value comes back if and only if it is not positive. */
  lemma KnotExactIff(table: seq<Q15>, i: nat)
    requires 2 <= |table| <= 0x8000_0000 && i < |table| - 1 && i < 0x800
    ensures LinearQ15(table, i * 0x10_0000) == table[i] <==> table[i] <= 0
    ensures LinearQ15(table, i * 0x10_0000) == Lower(table[i])
  {
    var x: Q31 := i * 0x10_0000;
    assert x / 0x10_0000 == i && x % 0x10_0000 == 0;
    InSegment(table, x);
    assert Mix(table[i], table[i + 1], 0) == (table[i] as int) * 0xF_FFFF;
    ScaledFloor(table[i]);
  }

  // ---------- Monotonicity ----------

  ghost predicate NonDecreasing(table: seq<Q15>) {
    forall i, j :: 0 <= i <= j < |table| ==> table[i] <= table[j]
  }

  lemma MixMonotone(y0: int, y1: int, f: int, g: int)
    requires y0 <= y1 && f <= g
    ensures Mix(y0, y1, f) <= Mix(y0, y1, g)
  {
  }

  /**
   A non-decreasing table gives a non-decreasing function on the whole non-negative axis: inside a segment, across
   segment boundaries, and into the upper clamp.
   */
  lemma Monotone(table: seq<Q15>, x: Q31, y: Q31)
    requires 1 <= |table| <= 0x8000_0000 && NonDecreasing(table) && 0 <= x <= y
    ensures LinearQ15(table, x) <= LinearQ15(table, y)
  {
    var i, j := x / 0x10_0000, y / 0x10_0000;
    var n := |table| - 1;
    if i >= n {
    } else if j >= n {
      InSegment(table, x);
    } else if i == j {
      InSegment(table, x);
      InSegment(table, y);
      MixMonotone(table[i], table[i + 1], x % 0x10_0000, y % 0x10_0000);
      FloorMono(Mix(table[i], table[i + 1], x % 0x10_0000), Mix(table[i], table[i + 1], y % 0x10_0000), 0x10_0000);
    } else {
      InSegment(table, x);
      InSegment(table, y);
      assert table[i] <= table[i + 1] <= table[j] <= table[j + 1];
    }
  }

  /**
   Over all coordinates, negative ones included, a non-decreasing table gives a non-decreasing function exactly when it
   has one entry or does not start with a positive value: below zero the first entry is returned as it is, at zero it is
   already lowered.
   */
  lemma MonotoneEverywhereIff(table: seq<Q15>)
    requires 1 <= |table| <= 0x8000_0000 && NonDecreasing(table)
    ensures (forall x: Q31, y: Q31 :: x <= y ==> LinearQ15(table, x) <= LinearQ15(table, y))
            <==> |table| == 1 || table[0] <= 0
  {
    if |table| == 1 || table[0] <= 0 {
      forall x: Q31, y: Q31 | x <= y ensures LinearQ15(table, x) <= LinearQ15(table, y) {
        if 0 <= x { Monotone(table, x, y); } else if 0 <= y { FromBelow(table, x, y); }
      }
    } else {
      KnotExactIff(table, 0);
      assert LinearQ15(table, -1) == table[0];
      assert LinearQ15(table, 0) < LinearQ15(table, -1);
    }
  }

  lemma FromBelow(table: seq<Q15>, x: Q31, y: Q31)
    requires 1 <= |table| <= 0x8000_0000 && NonDecreasing(table) && (|table| == 1 || table[0] <= 0) && x < 0 <= y
    ensures LinearQ15(table, x) <= LinearQ15(table, y)
  {
    if y / 0x10_0000 < |table| - 1 { InSegment(table, y); }
  }
}
