/**
 arm_recip_q31 and arm_recip_q15 (CMSIS/arm_math.h:721-817): normalise the input, look up a first approximation, refine
 it with two Newton passes. Both widths are one law: with `m = 2^31` or `2^15` and `h = m/2`, the input `x` is
 normalised to `h <= x < m` and the pass drives `x * out` towards `m * h` from below. The lookup table is a parameter.
 */
module Reciprocal {
  import opened Arith
  import opened FixedPoint

  // ---------- The law of one pass ----------

  /** The pass without casts: `out * (m - 1 - floor(x * out / m))`, floored at `h`. */
  function Pass(m: nat, h: nat, x: nat, out: nat): int
    requires m > 0 && h > 0
  {
    out * (m - 1 - x * out / m) / h
  }

  predicate Normalised(m: nat, h: nat, x: nat, out: nat) {
    h >= 1 && m == 2 * h && h <= x < m && 0 < out < m
  }

  /** Distance of an approximation from `1 / x`, scaled: `m * h - x * out`. */
  function Error(m: nat, h: nat, x: nat, out: int): int { m * h - x * out }

  /** The factor never drops to zero, so the approximation stays positive. */
  lemma FactorPositive(m: nat, h: nat, x: nat, out: nat)
    requires Normalised(m, h, x, out)
    ensures 0 <= x * out / m < out
    ensures m - 1 <= out * (m - 1 - x * out / m)
  {
    MulMonoStrict(x, m, out);
    MulMono(0, x, out);
    FloorUpper(x * out, out - 1, m);
    FloorLower(x * out, 0, m);
    var u := m - 1 - x * out / m;
    MulMono(m - out, u, out);
    MulMono(0, out - 1, m - 1 - out);
    assert out * (m - out) - (m - 1) == (out - 1) * (m - 1 - out);
  }

  lemma NewProductUpper(m: int, h: int, x: int, out: int, u: int)
    requires m > 0 && h > 0 && x > 0
    ensures x * (out * u / h) * (m * h) <= x * out * u * m
  {
  }

  lemma FactorProductUpper(m: nat, p: nat)
    requires m > 0 && p > 0
    ensures p * (m - 1 - p / m) * m < p * (m * m) - p * p
  {
  }

  /** Upper half of the law: the new product stays below `m*h` by more than the squared error over `m*h`. */
  lemma PassUndershoots(m: nat, h: nat, x: nat, out: nat)
    requires Normalised(m, h, x, out)
    ensures var e := Error(m, h, x, out); e * e < Error(m, h, x, Pass(m, h, x, out)) * (m * h)
  {
    var p := x * out;
    MulMonoStrict(0, x, out);
    SquareOfWidth(m, h);
    NewProductUpper(m, h, x, out, m - 1 - p / m);
    FactorProductUpper(m, p);
    ghost var q := Pass(m, h, x, out);
    ghost var pum, e := p * (m - 1 - p / m) * m, m * h;
    assert x * q * e <= pum;
    assert pum < p * (m * m) - p * p;
    CombineUpper(e, m * m, p, pum, x * q);
  }

  lemma CombineUpper(e: int, mm: int, p: int, pum: int, xq: int)
    requires mm == 2 * e && xq * e <= pum < p * mm - p * p
    ensures (e - p) * (e - p) < (e - xq) * e
  {
  }

  /** Flooring the new approximation loses less than one unit of `x`. */
  lemma NewProductLower(m: int, h: int, x: int, out: int, u: int)
    requires m > 0 && h > 0 && x > 0
    ensures x * out * u * m < x * (out * u / h) * (m * h) + x * (m * h)
  {
  }

  lemma FactorProductLower(m: nat, p: nat)
    requires m > 0
    ensures p * (m * m) - p * m - p * p <= p * (m - 1 - p / m) * m
  {
  }

  lemma ProductBelow(m: int, x: int, out: int)
    requires m > 0 && x > 0 && out < m
    ensures x * out * m < x * (m * m)
  {
  }

  /** Lower half of the law: rounding costs at most three times the input. */
  lemma PassConverges(m: nat, h: nat, x: nat, out: nat)
    requires Normalised(m, h, x, out)
    ensures var e := Error(m, h, x, out);
      Error(m, h, x, Pass(m, h, x, out)) * (m * h) < e * e + 3 * x * (m * h)
  {
    var p := x * out;
    MulMono(0, x, out);
    SquareOfWidth(m, h);
    NewProductLower(m, h, x, out, m - 1 - p / m);
    FactorProductLower(m, p);
    ProductBelow(m, x, out);
    ghost var q := Pass(m, h, x, out);
    ghost var pum, pm, e := p * (m - 1 - p / m) * m, p * m, m * h;
    assert pum < x * q * e + x * e;
    assert p * (m * m) - pm - p * p <= pum;
    assert pm < x * (m * m);
    CombineLower(e, m * m, x, p, pum, pm, x * q);
  }

  lemma SquareOfWidth(m: int, h: int)
    requires m == 2 * h
    ensures m * m == 2 * (m * h)
  {
  }

  lemma CombineLower(e: int, mm: int, x: int, p: int, pum: int, pm: int, xq: int)
    requires mm == 2 * e
    requires pum < xq * e + x * e && p * mm - pm - p * p <= pum && pm < x * mm
    ensures (e - xq) * e < (e - p) * (e - p) + 3 * x * e
  {
  }

  /** Everything one pass keeps: the approximation stays in range and below `1 / x`, and the error is squared. */
  lemma PassLaw(m: nat, h: nat, x: nat, out: nat)
    requires Normalised(m, h, x, out)
    ensures var out' := Pass(m, h, x, out);
      var e, e' := Error(m, h, x, out), Error(m, h, x, out');
      && 0 < out' < m && x * out' < m * h
      && e * e < e' * (m * h) < e * e + 3 * x * (m * h)
  {
    var out' := Pass(m, h, x, out);
    PassUndershoots(m, h, x, out);
    PassConverges(m, h, x, out);
    FactorPositive(m, h, x, out);
    FloorLower(out * (m - 1 - x * out / m), 1, h);
    var e, e' := Error(m, h, x, out), Error(m, h, x, out');
    SquareNonNegative(e);
    MulMonoStrict(0, m, h);
    if e' <= 0 { MulMono(e', 0, m * h); }
    if out' >= m {
      MulMono(m, out', h);
      MulMono(h, x, out');
    }
  }

  lemma SquareNonNegative(e: int)
    ensures e * e >= 0
  {
  }

  /**
   How good `dst` is after two passes from the table entry `t`: below the reciprocal, with an error that is the entry's
   error squared, plus rounding, squared again, plus rounding.
   */
  ghost predicate Approximates(m: nat, h: nat, x: nat, t: nat, dst: int) {
    m > 0 && h > 0 && x * dst < m * h &&
    var e0, e1, e2 := Error(m, h, x, t), Error(m, h, x, Pass(m, h, x, t)), Error(m, h, x, dst);
    && 0 < e1 && e1 * (m * h) < e0 * e0 + 3 * x * (m * h)
    && 0 < e2 && e2 * (m * h) < e1 * e1 + 3 * x * (m * h)
  }

  lemma TwoPassLaw(m: nat, h: nat, x: nat, t: nat, out1: nat, out2: int)
    requires Normalised(m, h, x, t) && out1 == Pass(m, h, x, t) && out2 == Pass(m, h, x, out1)
    ensures 0 < out2 < m && Approximates(m, h, x, t, out2)
  {
    PassLaw(m, h, x, t);
    PassLaw(m, h, x, out1);
  }

  lemma PassInRange(m: nat, h: nat, x: nat, out: nat)
    requires Normalised(m, h, x, out)
    ensures 0 < Pass(m, h, x, out) < m
  {
    PassLaw(m, h, x, out);
  }

  lemma SquareBound(e: int, d: int)
    requires -d <= e <= d
    ensures e * e <= d * d
  {
  }

  // ---------- Q31 ----------

  const M31: int := 0x8000_0000
  const H31: int := 0x4000_0000

  /** One iteration of the Q31 loop, casts and clip included (CMSIS/arm_math.h:752-759). */
  function PassQ31(x: Q31, out: Q31): Q31 {
    var t := ToU32(x * out / M31);
    var u := ToU32(0x7FFF_FFFF - t);
    FitsQ63(out, u, H31);
    ClipQ63IsClamp(out * u / H31);
    ClipQ63ToQ31(out * u / H31)
  }

  lemma FitsQ63(out: Q31, u: nat, h: nat)
    requires u < 0x1_0000_0000 && h > 0
    ensures -0x8000_0000_0000_0000 <= out * u / h <= 0x7FFF_FFFF_FFFF_FFFF
  {
    MulMono(out, 0x7FFF_FFFF, u);
    MulMono(-0x8000_0000, out, u);
    var p := out * u;
    if p >= 0 {
      MulMono(1, h, p + 1);
      FloorUpper(p, p, h);
      FloorLower(p, 0, h);
    } else {
      MulMono(1, h, -p);
      FloorLower(p, p, h);
      FloorUpper(p, 0, h);
    }
  }

  /** For a positive normalised input no cast wraps and the clip never fires. */
  lemma PassQ31IsPass(x: Q31, out: Q31)
    requires H31 <= x && 0 < out
    ensures PassQ31(x, out) == Pass(M31, H31, x, out)
  {
    FactorPositive(M31, H31, x, out);
    PassInRange(M31, H31, x, out);
    var t := x * out / M31;
    var u := M31 - 1 - t;
    var q := out * u / H31;
    assert ToU32(0x7FFF_FFFF - ToU32(t)) == u by { CastsBackQ31(t); }
    assert q == Pass(M31, H31, x, out);
    ClipIdle(q);
  }

  /** A factor taken from a non-negative 31-bit quotient survives both unsigned casts. */
  lemma CastsBackQ31(t: int)
    requires 0 <= t < M31
    ensures ToU32(0x7FFF_FFFF - ToU32(t)) == M31 - 1 - t
  {
    SmallMod(t, 0x1_0000_0000);
    SmallMod(0x7FFF_FFFF - t, 0x1_0000_0000);
  }

  lemma ClipIdle(q: Q63)
    requires 0 < q < M31
    ensures ClipQ63ToQ31(q) == q
  {
    ClipQ63IsClamp(q);
  }

  /** What a Q31 pass computes before the clip, in unbounded arithmetic. */
  function WideQ31(x: int, out: int): int { out * (M31 - 1 - x * out / M31) / H31 }

  /** For every input a pass from a positive approximation is the exact pass, saturated; no cast loses anything. */
  lemma PassQ31Saturates(x: Q31, out: Q31)
    requires out > 0
    ensures PassQ31(x, out) == Clamp(WideQ31(x, out), -0x8000_0000, 0x7FFF_FFFF)
  {
    var t := x * out / M31;
    MulMono(x, M31, out);
    MulMono(-M31, x, out);
    FloorUpper(x * out, out, M31);
    FloorLower(x * out, -out, M31);
    UnsignedFactorQ31(t, out);
    FitsQ63(out, M31 - 1 - t, H31);
    ClipQ63IsClamp(out * (M31 - 1 - t) / H31);
  }

  lemma UnsignedFactorQ31(t: int, out: Q31)
    requires out > 0 && -out <= t <= out
    ensures ToU32(0x7FFF_FFFF - ToU32(t)) == M31 - 1 - t
  {
    if t < 0 { assert ToU32(t) == t + 0x1_0000_0000; }
  }

  /** Without a positive input the approximation only grows: it is never brought down to a negative value. */
  lemma PassQ31NonPositive(x: Q31, out: Q31)
    requires x <= 0 && 0 < out
    ensures PassQ31(x, out) >= out
    ensures x <= -H31 ==> PassQ31(x, out) >= Clamp(2 * (out as int), 0, 0x7FFF_FFFF)
  {
    MulMono(x, 0, out);
    MulMono(-M31, x, out);
    FloorUpper(x * out, 0, M31);
    FloorLower(x * out, -out, M31);
    var u := 0x7FFF_FFFF - x * out / M31;
    assert ToU32(0x7FFF_FFFF - ToU32(x * out / M31)) == u;
    FitsQ63(out, u, H31);
    ClipQ63IsClamp(out * u / H31);
    MulMono(H31, u, out);
    FloorLower(out * u, out, H31);
    if x <= -H31 {
      MulMono(x, -H31, out);
      FloorUpper(x * out, -1, M31);
      MulMono(M31, u, out);
      FloorLower(out * u, 2 * out, H31);
    }
  }

  /** Shifting out the leading zeros normalises a positive value of `w` magnitude bits. */
  lemma ShiftNormalises(data: nat, count: nat, w: nat)
    requires count <= 31 && w <= 31 && Pow2(31 - count) <= data < Pow2(32 - count) && data < Pow2(w)
    ensures 32 - count <= w && Pow2(w - 1) <= data * Pow2(count + w - 32) < Pow2(w)
  {
    if w < 32 - count { Pow2Mono(w, 31 - count); }
    var k := count + w - 32;
    Pow2Add(31 - count, k);
    Pow2Add(32 - count, k);
    MulMono(Pow2(31 - count), data, Pow2(k));
    MulMonoStrict(data, Pow2(32 - count), Pow2(k));
  }

  /** The same for a signed value, by its magnitude. */
  lemma ShiftNormalisesSigned(input: int, count: nat, w: nat)
    requires input != 0 && count <= 31 && w <= 31
    requires var a := if input > 0 then input else -input; Pow2(31 - count) <= a < Pow2(32 - count) && a < Pow2(w)
    ensures 32 - count <= w
    ensures input > 0 ==> Pow2(w - 1) <= input * Pow2(count + w - 32) < Pow2(w)
    ensures input < 0 ==> -(Pow2(w) as int) < input * Pow2(count + w - 32) <= -(Pow2(w - 1) as int)
  {
    if input > 0 {
      ShiftNormalises(input, count, w);
    } else {
      ShiftNormalises(-input, count, w);
      Negated(input, Pow2(count + w - 32));
    }
  }

  lemma Negated(x: int, k: int)
    ensures (-x) * k == -(x * k)
  {
  }

  /** The table entry the index computation selects. */
  function Entry<T>(table: seq<T>, x: int, shift: nat): T
    requires |table| == 64 && shift > 0
  {
    table[ToU32(x / shift) % 64]
  }

  /** The mask picks the low six bits of the shifted input, of either sign. */
  lemma EntryIndex<T>(table: seq<T>, x: int, shift: nat)
    requires |table| == 64 && shift > 0
    ensures Entry(table, x, shift) == table[x / shift % 64]
  {
    LowSixBits(x / shift);
  }

  lemma LowSixBits(q: int)
    ensures ToU32(q) % 64 == q % 64
  {
    var n, r := q / 0x1_0000_0000, ToU32(q);
    assert q == n * 0x1_0000_0000 + r;
    DivUnique(q, n * 0x400_0000 + r / 64, r % 64, 64);
  }

  /** Entry `k` is good to one part in 2^7 at both ends of the bucket of inputs that select it. */
  ghost predicate GoodTable(table: seq<int>, unit: int, e: int) {
    |table| == 64 && forall k :: 0 <= k < 64 ==>
      Within(e, (64 + k) * unit, table[k]) && Within(e, (65 + k) * unit, table[k])
  }

  ghost predicate Within(e: int, x: int, t: int) { -e <= 128 * (e - x * t) <= e }

  /** The table of bucket midpoints: entry `k` is the reciprocal of the middle of its bucket. */
  function MidTable(g: nat): (table: seq<int>)
    ensures |table| == 64
  {
    seq(64, k requires 0 <= k => g / (129 + 2 * k))
  }

  /** A midpoint is within one part in 128 at both ends of its bucket; at the first one there is little to spare. */
  lemma MidpointIsGood(c: nat, g: nat, k: nat)
    requires k < 64 && g >= 0x40_0000
    ensures var t := g / (129 + 2 * k);
      && 0 < t && 129 * t <= g
      && Within(c * g, (64 + k) * (2 * c), t) && Within(c * g, (65 + k) * (2 * c), t)
  {
    var d: int := 129 + 2 * k;
    var t: int, r: int := g / d, g % d;
    Midpoint(g, k, t, r);
    WithinScaled(c, g, 128 + 2 * k, t);
    WithinScaled(c, g, 130 + 2 * k, t);
    BucketEnds(c, k);
  }

  lemma Midpoint(g: int, k: int, t: int, r: int)
    requires 0 <= k < 64 && g >= 0x40_0000 && g == t * (129 + 2 * k) + r && 0 <= r < 129 + 2 * k
    ensures 0 < t && 129 * t <= g
    ensures 0 <= 128 * (g - (128 + 2 * k) * t) <= g && -g <= 128 * (g - (130 + 2 * k) * t) <= g
  {
    if t < 16256 { MulMono(t, 16255, 129 + 2 * k); }
    assert t * (129 + 2 * k) == 129 * t + 2 * k * t;
    MulMono(16256, t, 2 * k);
    assert g - (128 + 2 * k) * t == r + t && g - (130 + 2 * k) * t == r - t;
  }

  lemma BucketEnds(c: int, k: int)
    ensures (64 + k) * (2 * c) == (128 + 2 * k) * c && (65 + k) * (2 * c) == (130 + 2 * k) * c
  {
  }

  /** An error of at most one part in 128 stays one when input and target are scaled by `c`. */
  lemma WithinScaled(c: int, g: int, n: int, t: int)
    requires c >= 0 && -g <= 128 * (g - n * t) <= g
    ensures Within(c * g, n * c, t)
  {
    var e := g - n * t;
    MulMono(128 * e, g, c);
    MulMono(-g, 128 * e, c);
    Factored(c, g, n, t);
    assert 128 * e * c == 128 * (c * e);
  }

  lemma Factored(c: int, g: int, n: int, t: int)
    ensures c * g - n * c * t == c * (g - n * t)
  {
  }

  /** Good tables of representable positive entries exist at both widths. */
  lemma GoodTablesExist()
    ensures GoodTable(MidTable(0x40_0000), 0x100, M15 * H15)
    ensures GoodTable(MidTable(0x40_0000_0000), 0x100_0000, M31 * H31)
    ensures forall k :: 0 <= k < 64 ==> 0 < MidTable(0x40_0000)[k] <= 0x7FFF
    ensures forall k :: 0 <= k < 64 ==> 0 < MidTable(0x40_0000_0000)[k] <= 0x7FFF_FFFF
  {
    forall k | 0 <= k < 64
      ensures var t := MidTable(0x40_0000)[k];
        && 0 < t <= 0x7FFF && Within(M15 * H15, (64 + k) * 0x100, t) && Within(M15 * H15, (65 + k) * 0x100, t)
    {
      MidpointIsGood(0x80, 0x40_0000, k);
    }
    forall k | 0 <= k < 64
      ensures var t := MidTable(0x40_0000_0000)[k];
        && 0 < t <= 0x7FFF_FFFF
        && Within(M31 * H31, (64 + k) * 0x100_0000, t) && Within(M31 * H31, (65 + k) * 0x100_0000, t)
    {
      MidpointIsGood(0x80_0000, 0x40_0000_0000, k);
    }
  }

  /** The index computation selects the bucket a normalised input lies in. */
  lemma Bucket(x: int, unit: int)
    requires unit > 0 && 64 * unit <= x < 128 * unit && x < 0x8000_0000
    ensures var k := ToU32(x / unit) % 64; (64 + k) * unit <= x < (65 + k) * unit
  {
    FloorBounds(x, unit);
    FloorLower(x, 64, unit);
    FloorUpper(x, 127, unit);
    var q := x / unit;
    MulMono(1, unit, q);
    SmallMod(q, 0x1_0000_0000);
    DivUnique(q, 1, q - 64, 64);
    assert (q + 1) * unit == q * unit + unit;
  }

  /** Good at both ends of the bucket means good on all of it. */
  lemma GoodTableIsGood(table: seq<int>, unit: int, e: int, x: int)
    requires GoodTable(table, unit, e) && unit > 0 && 64 * unit <= x < 128 * unit && x < 0x8000_0000
    ensures Within(e, x, Entry(table, x, unit))
  {
    Bucket(x, unit);
    var k := ToU32(x / unit) % 64;
    var t := table[k];
    assert Within(e, (64 + k) * unit, t) && Within(e, (65 + k) * unit, t);
    if t >= 0 {
      MulMono((64 + k) * unit, x, t);
      MulMono(x, (65 + k) * unit, t);
    } else {
      MulMono((64 + k) * unit, x, -t);
      MulMono(x, (65 + k) * unit, -t);
    }
  }

  /** `n` iterations of the Q31 loop. */
  function IterateQ31(n: nat, x: Q31, t: Q31): Q31 { if n == 0 then t else PassQ31(x, IterateQ31(n - 1, x, t)) }

  lemma PositiveIterationsQ31(x: Q31, t: Q31, out1: Q31, out2: Q31)
    requires t > 0 && x >= H31 && out1 == PassQ31(x, t) && out2 == PassQ31(x, out1)
    ensures out2 > 0 && Approximates(M31, H31, x, t, out2)
  {
    PassQ31IsPass(x, t);
    PassInRange(M31, H31, x, t);
    PassQ31IsPass(x, out1);
    TwoPassLaw(M31, H31, x, t, out1, out2);
  }

  lemma UnfoldQ31(x: Q31, t: Q31)
    ensures IterateQ31(2, x, t) == PassQ31(x, PassQ31(x, t))
  {
    assert IterateQ31(1, x, t) == PassQ31(x, IterateQ31(0, x, t));
  }

  lemma TwoIterationsQ31(x: Q31, t: Q31)
    requires t > 0 && (x >= H31 || x <= 0)
    ensures IterateQ31(2, x, t) > 0
    ensures x >= H31 ==> Approximates(M31, H31, x, t, IterateQ31(2, x, t))
    ensures x <= -H31 ==> IterateQ31(2, x, t) >= Clamp(4 * (t as int), 0, 0x7FFF_FFFF)
  {
    var out1 := PassQ31(x, t);
    UnfoldQ31(x, t);
    if x > 0 {
      PositiveIterationsQ31(x, t, out1, IterateQ31(2, x, t));
    } else {
      PassQ31NonPositive(x, t);
      PassQ31NonPositive(x, out1);
    }
  }

  /** Two exact passes, each saturated. */
  function TwicePassed(x: int, t: int): int {
    Clamp(WideQ31(x, Clamp(WideQ31(x, t), -0x8000_0000, 0x7FFF_FFFF)), -0x8000_0000, 0x7FFF_FFFF)
  }

  lemma TwicePassedQ31(x: Q31, t: Q31)
    requires t > 0 && (x >= H31 || x <= 0)
    ensures IterateQ31(2, x, t) == TwicePassed(x, t)
  {
    UnfoldQ31(x, t);
    PassQ31Saturates(x, t);
    if x > 0 {
      PassQ31IsPass(x, t);
      PassInRange(M31, H31, x, t);
    } else {
      PassQ31NonPositive(x, t);
    }
    PassQ31Saturates(x, PassQ31(x, t));
  }

  /** The sign bits of a non-minimal value, and the value with them shifted out. */
  method NormaliseQ31(input: Q31) returns (x: Q31, bits: nat)
    requires input > -0x8000_0000
    ensures bits <= 31 && x == input * Pow2(bits)
    ensures input > 0 ==> H31 <= x
    ensures input < 0 ==> -M31 < x <= -H31
    ensures input == 0 ==> x == 0 && bits == 31
  {
    var magnitude: nat := if input > 0 then input else -input;
    var c := CountLeadingZeros(magnitude);
    Pow2Values();
    if input != 0 { ShiftNormalisesSigned(input, c, 31); }
    bits := c - 1;
    x := ToQ31(input * Pow2(bits));
  }

  /**
   arm_recip_q31. For a positive input the result approaches the reciprocal from below, never saturates, and its error
   is the table error squared twice plus rounding; with a table good to one part in 2^7 the result is good to one part
   in 2^27, whatever the input. For every other input the result is still positive, so it has the sign of
   `1 / input` exactly for positive inputs.
   */
  method RecipQ31(input: Q31, table: seq<Q31>) returns (dst: Q31, signBits: nat)
    requires input > -0x8000_0000
    requires |table| == 64 && forall i :: 0 <= i < 64 ==> table[i] > 0
    ensures dst > 0 && 1 <= signBits <= 32 && (input == 0 ==> signBits == 32)
    ensures var x := input * Pow2(signBits - 1);
      && (input < 0 ==> -M31 < x <= -H31)
      && dst == TwicePassed(x, Entry(table, x, 0x100_0000))
      && (input > 0 ==> H31 <= x < M31 && Approximates(M31, H31, x, Entry(table, x, 0x100_0000), dst))
      && (input > 0 && GoodTable(table, 0x100_0000, M31 * H31) ==> 0 < Error(M31, H31, x, dst) < 0x4_0000_0000)
      && (input < 0 ==> dst >= Clamp(4 * (Entry(table, x, 0x100_0000) as int), 0, 0x7FFF_FFFF))
  {
    var x, bits := NormaliseQ31(input);
    var out: Q31 := Entry(table, x, 0x100_0000);
    ghost var t := out;
    var i := 0;
    while i < 2
      invariant 0 <= i <= 2 && out == IterateQ31(i, x, t)
    {
      out := PassQ31(x, out);
      i := i + 1;
    }
    TwoIterationsQ31(x, t);
    TwicePassedQ31(x, t);
    if input > 0 && GoodTable(table, 0x100_0000, M31 * H31) {
      GoodTableIsGood(table, 0x100_0000, M31 * H31, x);
      TwentySevenBits(x, t, out);
    }
    return out, bits + 1;
  }

  /** With a table good to one part in 2^7, two passes give better than one part in 2^27. */
  lemma TwentySevenBits(x: Q31, t: Q31, dst: Q31)
    requires H31 <= x && t > 0 && Approximates(M31, H31, x, t, dst) && Within(M31 * H31, x, t)
    ensures 0 < Error(M31, H31, x, dst) < 0x4_0000_0000
  {
    var e0, e1 := Error(M31, H31, x, t), Error(M31, H31, x, Pass(M31, H31, x, t));
    SquareBound(e0, 0x40_0000_0000_0000);
    assert e1 < 0x8000_0000_0000 + 3 * 0x8000_0000;
    SquareBound(e1, 0x8001_8000_0000);
  }

  // ---------- Q15 ----------

  const M15: int := 0x8000
  const H15: int := 0x4000

  /** One iteration of the Q15 loop; the product is unsigned 32-bit and the clip is commented out in the source. */
  function PassQ15(x: Q15, out: Q15): Q15 {
    var t := ToU32(x * out / M15);
    var u := ToU32(0x7FFF - t);
    ToQ15(ToU32(out * u) / H15)
  }

  /** The correction factor of a Q15 pass, before any cast. */
  function FactorQ15(x: Q15, out: Q15): int { M15 - 1 - x * out / M15 }

  /** What the pass computes before the narrowing cast. */
  function WideQ15(x: Q15, out: Q15): int { out * FactorQ15(x, out) / H15 }

  /** The 32-bit casts of a product and its shift do not matter: the 16-bit cast that follows sees the same. */
  lemma LowBitsSurvive(p: int)
    ensures ToQ15(ToU32(p) / H15) == ToQ15(p / H15)
  {
    var n, r := p / 0x1_0000_0000, p % 0x1_0000_0000;
    assert p == n * 0x1_0000_0000 + r;
    FloorShift(r, n * 0x4_0000, H15);
    assert p / H15 == r / H15 + n * 0x4_0000;
    WholeTurns(r / H15, n * 4);
  }

  lemma WholeTurns(v: int, k: int)
    ensures ToQ15(v + k * 0x1_0000) == ToQ15(v)
  {
    DivUnique(v + k * 0x1_0000, v / 0x1_0000 + k, v % 0x1_0000, 0x1_0000);
  }

  /** A factor computed through unsigned 32-bit casts gives the same product modulo 2^32. */
  lemma UnsignedFactor(out: int, t: int)
    ensures ToU32(out * ToU32(0x7FFF - ToU32(t))) == ToU32(out * (0x7FFF - t))
  {
    var n := t / 0x1_0000_0000;
    assert 0x7FFF - ToU32(t) == 0x7FFF - t + n * 0x1_0000_0000;
    ModAdd(0x7FFF - t, 0, 0x1_0000_0000);
    var u := ToU32(0x7FFF - ToU32(t));
    var k := (0x7FFF - ToU32(t)) / 0x1_0000_0000;
    assert u == 0x7FFF - t + (n - k) * 0x1_0000_0000;
    assert out * u == out * (0x7FFF - t) + out * (n - k) * 0x1_0000_0000;
    var p, q := out * (0x7FFF - t), out * (n - k);
    DivUnique(p + q * 0x1_0000_0000, p / 0x1_0000_0000 + q, p % 0x1_0000_0000, 0x1_0000_0000);
  }

  /** For every input and every approximation, of either sign, a pass is the exact pass reduced to 16 bits. */
  lemma PassQ15Reduces(x: Q15, out: Q15)
    ensures PassQ15(x, out) == ToQ15(WideQ15(x, out))
  {
    var t := x * out / M15;
    UnsignedFactor(out, t);
    LowBitsSurvive(out * (0x7FFF - t));
  }

  /** For a positive normalised input neither the unsigned product nor the narrowing cast wraps. */
  lemma PassQ15IsPass(x: Q15, out: Q15)
    requires H15 <= x && 0 < out
    ensures PassQ15(x, out) == Pass(M15, H15, x, out)
  {
    PassInRange(M15, H15, x, out);
    PassQ15Reduces(x, out);
    NarrowExact(Pass(M15, H15, x, out));
  }

  lemma FactorQ15Range(x: Q15, out: Q15)
    requires out > 0
    ensures 0 <= M15 - 1 - out <= FactorQ15(x, out) <= M15 - 1 + out
    ensures 0 <= out * FactorQ15(x, out) < 0x8000_0000
  {
    MulMono(x, M15, out);
    MulMono(-M15, x, out);
    FloorUpper(x * out, out, M15);
    FloorLower(x * out, -out, M15);
    MulMono(FactorQ15(x, out), 0xFFFE, out);
    MulMono(0, FactorQ15(x, out), out);
  }

  /**
   What the commented-out clip would have been for. For every input, of either sign, a pass from a positive
   approximation narrows without loss exactly when the product stays below 2^29; else the clip would have saturated.
   */
  lemma NarrowingExactIff(x: Q15, out: Q15)
    requires out > 0
    ensures PassQ15(x, out) == WideQ15(x, out) <==> out * FactorQ15(x, out) < 0x2000_0000
    ensures out * FactorQ15(x, out) >= 0x2000_0000 ==> Clamp(WideQ15(x, out), -0x8000, 0x7FFF) == 0x7FFF
  {
    var u, v := FactorQ15(x, out), WideQ15(x, out);
    PassQ15Reduces(x, out);
    FactorQ15Range(x, out);
    if out * u < 0x2000_0000 { FloorUpper(out * u, 0x7FFF, H15); } else { FloorLower(out * u, 0x8000, H15); }
    FloorLower(out * u, 0, H15);
    NarrowExact(v);
  }

  /** So from an entry of 0x3800 or more a negative normalised input always wraps, and zero does from above one half. */
  lemma NonPositiveWraps(x: Q15, out: Q15)
    requires (x <= -H15 && out >= 0x3800) || (x == 0 && out > H15)
    ensures PassQ15(x, out) != WideQ15(x, out)
  {
    NarrowingExactIff(x, out);
    if x < 0 {
      MulMono(x, -H15, out);
      MulMono(0x3800, out, H15);
      FloorUpper(x * out, -0x1C00, M15);
      MulMono(0x9BFF, FactorQ15(x, out), out);
    }
  }

  /** A good table has no entry below that. */
  lemma GoodEntryQ15(table: seq<Q15>, k: nat)
    requires k < 64 && GoodTable(table, 0x100, M15 * H15)
    ensures table[k] >= 0x3F80
  {
    var x, t := (65 + k) * 0x100, table[k];
    assert Within(M15 * H15, x, t);
    if t < 0x3F80 {
      MulMono(t, 0x3F7F, x);
      MulMono(x, 0x8000, 0x3F7F);
    }
  }

  function IterateQ15(n: nat, x: Q15, t: Q15): Q15 { if n == 0 then t else PassQ15(x, IterateQ15(n - 1, x, t)) }

  lemma PositiveIterationsQ15(x: Q15, t: Q15, out1: Q15, out2: Q15)
    requires t > 0 && x >= H15 && out1 == PassQ15(x, t) && out2 == PassQ15(x, out1)
    ensures out2 > 0 && Approximates(M15, H15, x, t, out2)
  {
    PassQ15IsPass(x, t);
    PassInRange(M15, H15, x, t);
    PassQ15IsPass(x, out1);
    TwoPassLaw(M15, H15, x, t, out1, out2);
  }

  lemma UnfoldQ15(x: Q15, t: Q15)
    ensures IterateQ15(2, x, t) == PassQ15(x, PassQ15(x, t))
  {
    assert IterateQ15(1, x, t) == PassQ15(x, IterateQ15(0, x, t));
  }

  lemma TwoIterationsQ15(x: Q15, t: Q15)
    requires t > 0 && x >= H15
    ensures IterateQ15(2, x, t) > 0 && Approximates(M15, H15, x, t, IterateQ15(2, x, t))
  {
    UnfoldQ15(x, t);
    PositiveIterationsQ15(x, t, PassQ15(x, t), IterateQ15(2, x, t));
  }

  /** With a table good to one part in 2^7, two passes at this width give better than one part in 2^12. */
  lemma TwelveBits(x: Q15, t: Q15, dst: Q15)
    requires H15 <= x && t > 0 && Approximates(M15, H15, x, t, dst) && Within(M15 * H15, x, t)
    ensures 0 < Error(M15, H15, x, dst) < 0x2_0000
  {
    var e0, e1 := Error(M15, H15, x, t), Error(M15, H15, x, Pass(M15, H15, x, t));
    SquareBound(e0, 0x40_0000);
    assert e1 < 0x8000 + 3 * 0x8000;
    SquareBound(e1, 0x2_0000);
  }

  method NormaliseQ15(input: Q15) returns (x: Q15, bits: nat)
    requires input > -0x8000
    ensures bits <= 15 && x == input * Pow2(bits)
    ensures input > 0 ==> H15 <= x
    ensures input < 0 ==> -M15 < x <= -H15
    ensures input == 0 ==> bits == 15
  {
    var magnitude: nat := if input > 0 then input else -input;
    var c := CountLeadingZeros(magnitude);
    Pow2Values();
    if input != 0 { ShiftNormalisesSigned(input, c, 15); }
    bits := c - 17;
    x := ToQ15(input * Pow2(bits));
  }

  /** The first of the two passes loses the top of its result in the narrowing cast. */
  predicate FirstPassWraps(x: Q15, table: seq<Q15>)
    requires |table| == 64
  {
    PassQ15(x, Entry(table, x, 0x100)) != WideQ15(x, Entry(table, x, 0x100))
  }

  /**
   arm_recip_q15. For every input the result is the exact value of two passes, each reduced to 16 bits. For a positive
   input nothing is lost in that, and the same law holds at width 15; for every negative input the first pass wraps when
   the table is good.
   */
  method RecipQ15(input: Q15, table: seq<Q15>) returns (dst: Q15, signBits: nat)
    requires input > -0x8000
    requires |table| == 64 && forall i :: 0 <= i < 64 ==> table[i] > 0
    ensures 1 <= signBits <= 16 && (input == 0 ==> signBits == 16)
    ensures var x := input * Pow2(signBits - 1);
      && (input < 0 ==> -M15 < x <= -H15)
      && -0x8000 <= x < 0x8000 && dst == ToQ15(WideQ15(x, ToQ15(WideQ15(x, Entry(table, x, 0x100)))))
      && (input > 0 ==> dst > 0 && H15 <= x && Approximates(M15, H15, x, Entry(table, x, 0x100), dst))
      && (input > 0 && GoodTable(table, 0x100, M15 * H15) ==> 0 < Error(M15, H15, x, dst) < 0x2_0000)
      && (input < 0 && Entry(table, x, 0x100) >= 0x3800 ==> FirstPassWraps(x, table))
      && (input < 0 && GoodTable(table, 0x100, M15 * H15) ==> FirstPassWraps(x, table))
      && (input == 0 && Entry(table, x, 0x100) > H15 ==> FirstPassWraps(x, table))
  {
    var x, bits := NormaliseQ15(input);
    var out: Q15 := Entry(table, x, 0x100);
    ghost var t := out;
    var i := 0;
    while i < 2
      invariant 0 <= i <= 2 && out == IterateQ15(i, x, t)
    {
      out := PassQ15(x, out);
      i := i + 1;
    }
    UnfoldQ15(x, t);
    PassQ15Reduces(x, t);
    PassQ15Reduces(x, PassQ15(x, t));
    if input > 0 {
      TwoIterationsQ15(x, t);
      if GoodTable(table, 0x100, M15 * H15) {
        GoodTableIsGood(table, 0x100, M15 * H15, x);
        TwelveBits(x, t, out);
      }
    } else {
      if GoodTable(table, 0x100, M15 * H15) { GoodEntryQ15(table, ToU32(x / 0x100) % 64); }
      if (input < 0 && t >= 0x3800) || (input == 0 && t > H15) { NonPositiveWraps(x, t); }
    }
    return out, bits + 1;
  }
}
