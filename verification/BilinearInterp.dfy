/**
 Bilinear interpolation, arm_bilinear_interp_q15 and arm_bilinear_interp_q7 (CMSIS/arm_math.h:7075-7142, 7153-7216):
 four corner samples weighted by two 20-bit fractions.
 */
module BilinearInterp {
  import opened Arith
  import opened FixedPoint
  import opened LinearInterp

  /** The instance structure: dimensions and the table, row after row. */
  datatype Table = Table(numRows: nat, numCols: nat, data: seq<int>)

  /** The coordinate test at the top of both routines. */
  predicate Accepted(t: Table, x: Q31, y: Q31) {
    0 <= x / 0x10_0000 <= t.numRows - 1 && 0 <= y / 0x10_0000 <= t.numCols - 1
  }

  /** The index of the last of the four reads. */
  function LastRead(t: Table, x: Q31, y: Q31): int {
    x / 0x10_0000 + t.numCols * (y / 0x10_0000 + 1) + 1
  }

  /** All four reads fall inside the table, or none happens. */
  predicate ReadsInside(t: Table, x: Q31, y: Q31) {
    Accepted(t, x, y) ==> LastRead(t, x, y) < |t.data|
  }

  datatype Corners = Corners(x1: int, x2: int, y1: int, y2: int)

  lemma ReadOrder(t: Table, x: Q31, y: Q31)
    requires Accepted(t, x, y)
    ensures var at := x / 0x10_0000 + t.numCols * (y / 0x10_0000); 0 <= at && at + t.numCols + 1 == LastRead(t, x, y)
  {
  }

  /** The two neighbours along the row, and the two along the next row. */
  function Fetch(t: Table, x: Q31, y: Q31): Corners
    requires Accepted(t, x, y) && ReadsInside(t, x, y)
  {
    ReadOrder(t, x, y);
    var at := x / 0x10_0000 + t.numCols * (y / 0x10_0000);
    Corners(t.data[at], t.data[at + 1], t.data[at + t.numCols], t.data[at + t.numCols + 1])
  }

  /** The 12-bit signed index reaches at most 2047. */
  function Reach(dimension: nat): nat { if dimension <= 0x800 then dimension else 0x800 }

  /**
   How large a table the coordinate test asks for: every accepted coordinate reads inside exactly when the table is
   empty in one dimension, so that none is accepted, or longer than `rows + numCols * cols`, with `rows` and `cols` the
   dimensions as far as the 12-bit indices reach. In particular a square table of `numRows * numCols` entries is too
   short.
   */
  lemma AllReadsInsideIff(t: Table)
    ensures (forall x: Q31, y: Q31 :: ReadsInside(t, x, y)) <==>
            t.numRows == 0 || t.numCols == 0 || Reach(t.numRows) + t.numCols * Reach(t.numCols) < |t.data|
  {
    if t.numRows > 0 && t.numCols > 0 {
      var rows, cols := Reach(t.numRows), Reach(t.numCols);
      if rows + t.numCols * cols < |t.data| {
        forall x: Q31, y: Q31 | Accepted(t, x, y) ensures LastRead(t, x, y) < |t.data| {
          MulMono(y / 0x10_0000 + 1, cols, t.numCols);
        }
      } else {
        var x: Q31, y: Q31 := (rows - 1) * 0x10_0000, (cols - 1) * 0x10_0000;
        assert x / 0x10_0000 == rows - 1 && y / 0x10_0000 == cols - 1;
        assert LastRead(t, x, y) == rows + t.numCols * cols;
        assert !ReadsInside(t, x, y);
      }
    }
  }

  // ---------- The weights ----------

  /** The four weights are non-negative and add up to `0xFFFFF^2`. */
  lemma WeightsAddUp(f: int, g: int)
    requires 0 <= f <= 0xF_FFFF && 0 <= g <= 0xF_FFFF
    ensures var (a, b, c, d) := ((0xF_FFFF - f) * (0xF_FFFF - g), (0xF_FFFF - g) * f, (0xF_FFFF - f) * g, f * g);
      a >= 0 && b >= 0 && c >= 0 && d >= 0 && a + b + c + d == 0xF_FFFF * 0xF_FFFF
  {
    MulMono(0, 0xF_FFFF - f, 0xF_FFFF - g);
    MulMono(0, 0xF_FFFF - g, f);
    MulMono(0, 0xF_FFFF - f, g);
    MulMono(0, f, g);
    assert (0xF_FFFF - f) * (0xF_FFFF - g) == 0xF_FFFF * 0xF_FFFF - 0xF_FFFF * g - 0xF_FFFF * f + f * g;
    assert (0xF_FFFF - g) * f == 0xF_FFFF * f - f * g;
    assert (0xF_FFFF - f) * g == 0xF_FFFF * g - f * g;
  }

  /** The exactly weighted sum of the corners. */
  function Weighted(k: Corners, f: int, g: int): int {
    k.x1 * ((0xF_FFFF - f) * (0xF_FFFF - g)) + k.x2 * ((0xF_FFFF - g) * f)
    + k.y1 * ((0xF_FFFF - f) * g) + k.y2 * (f * g)
  }

  /** The reference: interpolate along both rows by `f`, then between the rows by `g`. */
  function Nested(k: Corners, f: int, g: int): int { Mix(Mix(k.x1, k.x2, f), Mix(k.y1, k.y2, f), g) }

  lemma WeightedIsNested(k: Corners, f: int, g: int)
    ensures Weighted(k, f, g) == Nested(k, f, g)
  {
  }

  predicate CornersIn(k: Corners, lo: int, hi: int) {
    lo <= k.x1 <= hi && lo <= k.x2 <= hi && lo <= k.y1 <= hi && lo <= k.y2 <= hi
  }

  lemma WeightedBetween(k: Corners, lo: int, hi: int, f: int, g: int)
    requires CornersIn(k, lo, hi) && 0 <= f <= 0xF_FFFF && 0 <= g <= 0xF_FFFF
    ensures lo * 0xFFFFE_00001 <= Weighted(k, f, g) <= hi * 0xFFFFE_00001
  {
    WeightsAddUp(f, g);
    FourTerms(k, lo, hi, (0xF_FFFF - f) * (0xF_FFFF - g), (0xF_FFFF - g) * f, (0xF_FFFF - f) * g, f * g);
  }

  lemma FourTerms(k: Corners, lo: int, hi: int, a: int, b: int, c: int, d: int)
    requires CornersIn(k, lo, hi) && a >= 0 && b >= 0 && c >= 0 && d >= 0
    ensures lo * (a + b + c + d) <= k.x1 * a + k.x2 * b + k.y1 * c + k.y2 * d <= hi * (a + b + c + d)
  {
    MulMono(lo, k.x1, a);
    MulMono(lo, k.x2, b);
    MulMono(lo, k.y1, c);
    MulMono(lo, k.y2, d);
    MulMono(k.x1, hi, a);
    MulMono(k.x2, hi, b);
    MulMono(k.y1, hi, c);
    MulMono(k.y2, hi, d);
    assert lo * (a + b + c + d) == lo * a + lo * b + lo * c + lo * d;
    assert hi * (a + b + c + d) == hi * a + hi * b + hi * c + hi * d;
  }

  // ---------- Q15 ----------

  /** One term: the corner times its first weight, down four bits into 32 bits, times the second weight. */
  function TermQ15(corner: int, w1: int, w2: int): int { (ToQ31(corner * w1 / 16) as int) * w2 }

  /** The accumulator of arm_bilinear_interp_q15. */
  function AccQ15(k: Corners, f: int, g: int): int {
    TermQ15(k.x1, 0xF_FFFF - f, 0xF_FFFF - g) + TermQ15(k.x2, 0xF_FFFF - g, f)
    + TermQ15(k.y1, 0xF_FFFF - f, g) + TermQ15(k.y2, f, g)
  }

  function BilinearQ15(t: Table, x: Q31, y: Q31): Q15
    requires ReadsInside(t, x, y)
  {
    if !Accepted(t, x, y) then 0
    else ToQ15(AccQ15(Fetch(t, x, y), x % 0x10_0000, y % 0x10_0000) / 0x10_0000_0000)
  }

  /** The 32-bit intermediate is exact, and a term is its exact value less a truncation. */
  lemma TermBounds(corner: int, w1: int, w2: int)
    requires -0x8000 <= corner <= 0x7FFF && 0 <= w1 <= 0xF_FFFF && 0 <= w2 <= 0xF_FFFF
    ensures ToQ31(corner * w1 / 16) == corner * w1 / 16
    ensures corner * (w1 * w2) - 15 * w2 <= 16 * TermQ15(corner, w1, w2) <= corner * (w1 * w2)
  {
    MulMono(corner, 0x7FFF, w1);
    MulMono(-0x8000, corner, w1);
    var p := corner * w1;
    NarrowExact(p / 16);
    Truncation(p, w2);
    assert p * w2 == corner * (w1 * w2);
  }

  lemma Truncation(p: int, w: int)
    requires w >= 0
    ensures p * w - 15 * w <= 16 * (p / 16 * w) <= p * w
  {
    var q := p / 16;
    MulMono(16 * q, p, w);
    MulMono(p - 15, 16 * q, w);
    assert (p - 15) * w == p * w - 15 * w;
    assert 16 * q * w == 16 * (q * w);
  }

  lemma AccBounds(k: Corners, f: int, g: int)
    requires CornersIn(k, -0x8000, 0x7FFF) && 0 <= f <= 0xF_FFFF && 0 <= g <= 0xF_FFFF
    ensures Weighted(k, f, g) - 0x300_0000 <= 16 * AccQ15(k, f, g) <= Weighted(k, f, g)
  {
    TermBounds(k.x1, 0xF_FFFF - f, 0xF_FFFF - g);
    TermBounds(k.x2, 0xF_FFFF - g, f);
    TermBounds(k.y1, 0xF_FFFF - f, g);
    TermBounds(k.y2, f, g);
  }

  /** The accumulator, floored, against the nested reference and the corners. */
  lemma FlooredQ15(k: Corners, f: int, g: int, lo: int, hi: int)
    requires -0x8000 <= lo && hi <= 0x7FFF && CornersIn(k, lo, hi) && 0 <= f <= 0xF_FFFF && 0 <= g <= 0xF_FFFF
    ensures var q := AccQ15(k, f, g) / 0x10_0000_0000;
      && lo - 1 <= q <= Lower(hi) && (lo <= -0x20 ==> lo <= q) && ToQ15(q) == q
      && 0 <= Nested(k, f, g) - 0x100_0000_0000 * q < 0x100_0000_0000 + 0x300_0000
  {
    AccBounds(k, f, g);
    WeightedIsNested(k, f, g);
    WeightedBetween(k, lo, hi, f, g);
    var acc := AccQ15(k, f, g);
    FloorUpper(acc, Lower(hi), 0x10_0000_0000);
    FloorLower(acc, lo - 1, 0x10_0000_0000);
    if lo <= -0x20 { FloorLower(acc, lo, 0x10_0000_0000); }
    NarrowExact(acc / 0x10_0000_0000);
    FloorBounds(acc, 0x10_0000_0000);
  }

  /**
   For every accepted coordinate the Q15 result is the nested linear interpolation, floored, up to the truncation of the
   32-bit intermediates; it lies between the smallest corner less one and the largest corner lowered, so neither those
   intermediates nor the final 16-bit cast overflow.
   */
  lemma BilinearQ15Between(t: Table, x: Q31, y: Q31, k: Corners, lo: int, hi: int)
    requires Accepted(t, x, y) && ReadsInside(t, x, y) && Around(t, x, y, k)
    requires -0x8000 <= lo && hi <= 0x7FFF && CornersIn(k, lo, hi)
    ensures lo - 1 <= BilinearQ15(t, x, y) <= Lower(hi)
    ensures lo <= -0x20 ==> lo <= BilinearQ15(t, x, y)
    ensures 0 <= Nested(k, x % 0x10_0000, y % 0x10_0000) - 0x100_0000_0000 * (BilinearQ15(t, x, y) as int)
              < 0x100_0000_0000 + 0x300_0000
  {
    assert Fetch(t, x, y) == k;
    FlooredQ15(k, x % 0x10_0000, y % 0x10_0000, lo, hi);
  }

  // ---------- Q7 ----------

  /** The accumulator of arm_bilinear_interp_q7: no shift, and 32-bit products. */
  function AccQ7(k: Corners, f: int, g: int): int {
    (ToQ31(k.x1 * (0xF_FFFF - f)) as int) * (0xF_FFFF - g) + (ToQ31(k.x2 * (0xF_FFFF - g)) as int) * f
    + (ToQ31(k.y1 * (0xF_FFFF - f)) as int) * g + (ToQ31(k.y2 * g) as int) * f
  }

  function BilinearQ7(t: Table, x: Q31, y: Q31): Q7
    requires ReadsInside(t, x, y)
  {
    if !Accepted(t, x, y) then 0
    else ToQ7(AccQ7(Fetch(t, x, y), x % 0x10_0000, y % 0x10_0000) / 0x100_0000_0000)
  }

  lemma ProductExactQ7(corner: int, w: int)
    requires -0x80 <= corner <= 0x7F && 0 <= w <= 0xF_FFFF
    ensures ToQ31(corner * w) == corner * w
  {
    MulMono(corner, 0x7F, w);
    MulMono(-0x80, corner, w);
    NarrowExact(corner * w);
  }

  lemma Reassociate(a: int, b: int, c: int)
    ensures a * b * c == a * (b * c) == a * (c * b)
  {
  }

  lemma AccQ7IsWeighted(k: Corners, f: int, g: int)
    requires CornersIn(k, -0x80, 0x7F) && 0 <= f <= 0xF_FFFF && 0 <= g <= 0xF_FFFF
    ensures AccQ7(k, f, g) == Weighted(k, f, g)
  {
    ProductExactQ7(k.x1, 0xF_FFFF - f);
    ProductExactQ7(k.x2, 0xF_FFFF - g);
    ProductExactQ7(k.y1, 0xF_FFFF - f);
    ProductExactQ7(k.y2, g);
    Reassociate(k.x1, 0xF_FFFF - f, 0xF_FFFF - g);
    Reassociate(k.x2, 0xF_FFFF - g, f);
    Reassociate(k.y1, 0xF_FFFF - f, g);
    Reassociate(k.y2, g, f);
  }

  lemma FlooredQ7(k: Corners, f: int, g: int, lo: int, hi: int)
    requires -0x80 <= lo && hi <= 0x7F && CornersIn(k, lo, hi) && 0 <= f <= 0xF_FFFF && 0 <= g <= 0xF_FFFF
    ensures var q := AccQ7(k, f, g) / 0x100_0000_0000;
      Lower(lo) <= q <= Lower(hi) && ToQ7(q) == q && q == Nested(k, f, g) / 0x100_0000_0000
  {
    AccQ7IsWeighted(k, f, g);
    WeightedIsNested(k, f, g);
    WeightedBetween(k, lo, hi, f, g);
    var acc := AccQ7(k, f, g);
    FloorUpper(acc, Lower(hi), 0x100_0000_0000);
    FloorLower(acc, Lower(lo), 0x100_0000_0000);
    NarrowExactQ7(acc / 0x100_0000_0000);
  }

  /** The Q7 result is the nested linear interpolation, floored, between the lowered smallest and largest corners. */
  lemma BilinearQ7Between(t: Table, x: Q31, y: Q31, k: Corners, lo: int, hi: int)
    requires Accepted(t, x, y) && ReadsInside(t, x, y) && Around(t, x, y, k)
    requires -0x80 <= lo && hi <= 0x7F && CornersIn(k, lo, hi)
    ensures Lower(lo) <= BilinearQ7(t, x, y) <= Lower(hi)
    ensures BilinearQ7(t, x, y) == Nested(k, x % 0x10_0000, y % 0x10_0000) / 0x100_0000_0000
  {
    assert Fetch(t, x, y) == k;
    FlooredQ7(k, x % 0x10_0000, y % 0x10_0000, lo, hi);
  }

  // ---------- Which samples, and in which direction ----------

  /** The four table entries around an accepted coordinate: `x` counts along a row, `y` counts rows. */
  predicate Around(t: Table, x: Q31, y: Q31, k: Corners) {
    var at := x / 0x10_0000 + t.numCols * (y / 0x10_0000);
    && 0 <= at && at + t.numCols + 1 < |t.data|
    && k.x1 == t.data[at] && k.x2 == t.data[at + 1]
    && k.y1 == t.data[at + t.numCols] && k.y2 == t.data[at + t.numCols + 1]
  }

  /** A coordinate that fails the test yields zero, whatever the table holds. */
  lemma RejectedIsZero(t: Table, x: Q31, y: Q31)
    requires !(0 <= x / 0x10_0000 < t.numRows && 0 <= y / 0x10_0000 < t.numCols)
    ensures ReadsInside(t, x, y) && BilinearQ15(t, x, y) == 0 && BilinearQ7(t, x, y) == 0
  {
  }

  /** The two weights of a fraction at either end: all on the near sample, or all on the far one. */
  lemma MixAtEnds(y0: int, y1: int)
    ensures Mix(y0, y1, 0) == y0 * 0xF_FFFF && Mix(y0, y1, 0xF_FFFF) == y1 * 0xF_FFFF
  {
  }

  /** On an edge of the cell, interpolating twice is interpolating along the edge, times the sum of the weights. */
  lemma NestedOnEdges(k: Corners, f: int, g: int)
    ensures Nested(k, f, 0) == Mix(k.x1, k.x2, f) * 0xF_FFFF
    ensures Nested(k, f, 0xF_FFFF) == Mix(k.y1, k.y2, f) * 0xF_FFFF
    ensures Nested(k, 0, g) == Mix(k.x1, k.y1, g) * 0xF_FFFF
    ensures Nested(k, 0xF_FFFF, g) == Mix(k.x2, k.y2, g) * 0xF_FFFF
  {
    MixAtEnds(Mix(k.x1, k.x2, f), Mix(k.y1, k.y2, f));
    MixAtEnds(k.x1, k.x2);
    MixAtEnds(k.y1, k.y2);
    assert Mix(k.x1 * 0xF_FFFF, k.y1 * 0xF_FFFF, g) == Mix(k.x1, k.y1, g) * 0xF_FFFF;
    assert Mix(k.x2 * 0xF_FFFF, k.y2 * 0xF_FFFF, g) == Mix(k.x2, k.y2, g) * 0xF_FFFF;
  }

  /** A result that floors such a value, up to a small truncation, is the linear interpolation within one unit. */
  lemma NearBlend(y0: int, y1: int, f: int, nested: int, r: int)
    requires -0x8000 <= y0 <= 0x7FFF && -0x8000 <= y1 <= 0x7FFF && 0 <= f <= 0xF_FFFF
    requires nested == Mix(y0, y1, f) * 0xF_FFFF && 0 <= nested - 0x100_0000_0000 * r < 0x100_0000_0000 + 0x300_0000
    ensures -1 <= r - Blend(y0, y1, f) <= 1
  {
    MixBetween(-0x8000, 0x7FFF, y0, y1, f);
    FloorBounds(Mix(y0, y1, f), 0x10_0000);
  }

  /** The bilinear result on the four edges of the cell, as linear interpolation between two table entries. */
  predicate EdgesAreLinear(t: Table, x: Q31, y: Q31, r: int)
    requires Accepted(t, x, y) && LastRead(t, x, y) < |t.data|
  {
    ReadOrder(t, x, y);
    var at, f, g := x / 0x10_0000 + t.numCols * (y / 0x10_0000), x % 0x10_0000, y % 0x10_0000;
    && (g == 0 ==> -1 <= r - Blend(t.data[at], t.data[at + 1], f) <= 1)
    && (f == 0 ==> -1 <= r - Blend(t.data[at], t.data[at + t.numCols], g) <= 1)
    && (g == 0xF_FFFF ==> -1 <= r - Blend(t.data[at + t.numCols], t.data[at + t.numCols + 1], f) <= 1)
    && (f == 0xF_FFFF ==> -1 <= r - Blend(t.data[at + 1], t.data[at + t.numCols + 1], g) <= 1)
  }

  lemma CellEdges(k: Corners, f: int, g: int, r: int)
    requires CornersIn(k, -0x8000, 0x7FFF) && 0 <= f <= 0xF_FFFF && 0 <= g <= 0xF_FFFF
    requires 0 <= Nested(k, f, g) - 0x100_0000_0000 * r < 0x100_0000_0000 + 0x300_0000
    ensures g == 0 ==> -1 <= r - Blend(k.x1, k.x2, f) <= 1
    ensures f == 0 ==> -1 <= r - Blend(k.x1, k.y1, g) <= 1
    ensures g == 0xF_FFFF ==> -1 <= r - Blend(k.y1, k.y2, f) <= 1
    ensures f == 0xF_FFFF ==> -1 <= r - Blend(k.x2, k.y2, g) <= 1
  {
    NestedOnEdges(k, f, g);
    if g == 0 { NearBlend(k.x1, k.x2, f, Nested(k, f, g), r); }
    if f == 0 { NearBlend(k.x1, k.y1, g, Nested(k, f, g), r); }
    if g == 0xF_FFFF { NearBlend(k.y1, k.y2, f, Nested(k, f, g), r); }
    if f == 0xF_FFFF { NearBlend(k.x2, k.y2, g, Nested(k, f, g), r); }
  }

  /**
   Which samples are read, and along which axis. On each edge of the cell the Q15 result is, within one unit, the linear
   interpolation of the two table entries at the ends of that edge.
   */
  lemma BilinearQ15OnEdges(t: Table, x: Q31, y: Q31)
    requires Accepted(t, x, y) && ReadsInside(t, x, y)
    requires forall i :: 0 <= i < |t.data| ==> -0x8000 <= t.data[i] <= 0x7FFF
    ensures EdgesAreLinear(t, x, y, BilinearQ15(t, x, y))
  {
    ReadOrder(t, x, y);
    var at := x / 0x10_0000 + t.numCols * (y / 0x10_0000);
    var k := Corners(t.data[at], t.data[at + 1], t.data[at + t.numCols], t.data[at + t.numCols + 1]);
    BilinearQ15Between(t, x, y, k, -0x8000, 0x7FFF);
    CellEdges(k, x % 0x10_0000, y % 0x10_0000, BilinearQ15(t, x, y));
  }

  /** The same for Q7. */
  lemma BilinearQ7OnEdges(t: Table, x: Q31, y: Q31)
    requires Accepted(t, x, y) && ReadsInside(t, x, y)
    requires forall i :: 0 <= i < |t.data| ==> -0x80 <= t.data[i] <= 0x7F
    ensures EdgesAreLinear(t, x, y, BilinearQ7(t, x, y))
  {
    ReadOrder(t, x, y);
    var at := x / 0x10_0000 + t.numCols * (y / 0x10_0000);
    var k := Corners(t.data[at], t.data[at + 1], t.data[at + t.numCols], t.data[at + t.numCols + 1]);
    BilinearQ7Between(t, x, y, k, -0x80, 0x7F);
    FloorBounds(Nested(k, x % 0x10_0000, y % 0x10_0000), 0x100_0000_0000);
    CellEdges(k, x % 0x10_0000, y % 0x10_0000, BilinearQ7(t, x, y));
  }
}
