/**
 The Q31 Park transform and its inverse (CMSIS/arm_math.h:5349-5378, 5452-5481): a rotation by a sine and cosine given
 as 1.31 values, with every product truncated and every sum saturated.
 */
module Park {
  import opened Arith
  import opened FixedPoint

  datatype Pair = Pair(first: int, second: int)

  const K: int := 0x8000_0000
  const HALF: int := 0x4000_0000

  /** `(q31_t)(((q63_t)a * b) >> 31)`. */
  function Product(a: Q31, b: Q31): Q31 { ToQ31(Scale(a, b)) }

  /** The same without the cast. */
  function Scale(a: int, b: int): int { a * b / K }

  /** arm_park_q31: `first` is Id, `second` is Iq. */
  function Forward(alpha: Q31, beta: Q31, sin: Q31, cos: Q31): Pair {
    var p1, p2 := Product(alpha, cos), Product(beta, sin);
    var p3, p4 := Product(alpha, sin), Product(beta, cos);
    Pair(QAdd(p1, p2), QSub(p4, p3))
  }

  /** arm_inv_park_q31: `first` is Ialpha, `second` is Ibeta. */
  function Inverse(d: Q31, q: Q31, sin: Q31, cos: Q31): Pair {
    var p1, p2 := Product(d, cos), Product(q, sin);
    var p3, p4 := Product(d, sin), Product(q, cos);
    Pair(QSub(p1, p2), QAdd(p4, p3))
  }

  // ---------- The rotation without casts and saturation ----------

  function TurnD(alpha: int, beta: int, sin: int, cos: int): int { Scale(alpha, cos) + Scale(beta, sin) }
  function TurnQ(alpha: int, beta: int, sin: int, cos: int): int { Scale(beta, cos) - Scale(alpha, sin) }
  function BackA(d: int, q: int, sin: int, cos: int): int { Scale(d, cos) - Scale(q, sin) }
  function BackB(d: int, q: int, sin: int, cos: int): int { Scale(q, cos) + Scale(d, sin) }

  predicate InQ31(x: int) { -K <= x < K }

  predicate ProductsFit(x: int, y: int, sin: int, cos: int) {
    InQ31(Scale(x, cos)) && InQ31(Scale(x, sin)) && InQ31(Scale(y, cos)) && InQ31(Scale(y, sin))
  }

  /** No cast wraps and no sum saturates, on the way there and back. */
  predicate NothingSaturates(alpha: int, beta: int, sin: int, cos: int) {
    && ProductsFit(alpha, beta, sin, cos) && InRange(alpha, beta, sin, cos)
    && ProductsFit(TurnD(alpha, beta, sin, cos), TurnQ(alpha, beta, sin, cos), sin, cos)
  }

  /** Every coordinate of the plain rotation, there and back, is a 1.31 value. */
  predicate InRange(alpha: int, beta: int, sin: int, cos: int) {
    var d, q := TurnD(alpha, beta, sin, cos), TurnQ(alpha, beta, sin, cos);
    InQ31(d) && InQ31(q) && InQ31(BackA(d, q, sin, cos)) && InQ31(BackB(d, q, sin, cos))
  }

  /** The two routines, one after the other, are the plain rotation. */
  predicate Faithful(alpha: Q31, beta: Q31, sin: Q31, cos: Q31) {
    var d, q := TurnD(alpha, beta, sin, cos), TurnQ(alpha, beta, sin, cos);
    && Forward(alpha, beta, sin, cos) == Pair(d, q) && InQ31(d) && InQ31(q)
    && Inverse(d, q, sin, cos) == Pair(BackA(d, q, sin, cos), BackB(d, q, sin, cos))
  }

  lemma RoutinesAreRotation(alpha: Q31, beta: Q31, sin: Q31, cos: Q31)
    requires NothingSaturates(alpha, beta, sin, cos)
    ensures Faithful(alpha, beta, sin, cos)
  {
    ForwardClamps(alpha, beta, sin, cos);
    InverseClamps(TurnD(alpha, beta, sin, cos), TurnQ(alpha, beta, sin, cos), sin, cos);
  }

  lemma FourProducts(x: Q31, y: Q31, sin: Q31, cos: Q31)
    requires ProductsFit(x, y, sin, cos)
    ensures Product(x, cos) == Scale(x, cos) && Product(x, sin) == Scale(x, sin)
    ensures Product(y, cos) == Scale(y, cos) && Product(y, sin) == Scale(y, sin)
  {
    NarrowExact(Scale(x, cos));
    NarrowExact(Scale(x, sin));
    NarrowExact(Scale(y, cos));
    NarrowExact(Scale(y, sin));
  }

  // ---------- Saturation ----------

  /** The product of two 1.31 values as the code computes it: truncated, except that -1.0 times -1.0 wraps to -1.0. */
  function Truncated(a: int, b: int): int { if a == -K && b == -K then -K else Scale(a, b) }

  lemma ProductIsTruncated(a: Q31, b: Q31)
    ensures Product(a, b) == Truncated(a, b)
  {
    if a == -K && b == -K {
      assert Scale(a, b) == K;
    } else {
      if a != -K { ScaleShrinks(a, b); } else { ScaleShrinks(b, a); }
      Commutes(a, b);
      NarrowExact(Scale(a, b));
    }
  }

  lemma Commutes(a: int, b: int)
    ensures Scale(a, b) == Scale(b, a)
  {
  }

  function Saturated(x: int): int { Clamp(x, -K, K - 1) }

  /**
   arm_park_q31 on all inputs: each coordinate is the sum of its two truncated products, saturated at the ends of the
   range and never wrapped.
   */
  lemma ForwardSaturates(alpha: Q31, beta: Q31, sin: Q31, cos: Q31)
    ensures Forward(alpha, beta, sin, cos) ==
            Pair(Saturated(Truncated(alpha, cos) + Truncated(beta, sin)),
                 Saturated(Truncated(beta, cos) - Truncated(alpha, sin)))
  {
    ProductIsTruncated(alpha, cos);
    ProductIsTruncated(beta, sin);
    ProductIsTruncated(alpha, sin);
    ProductIsTruncated(beta, cos);
    QAddSaturates(Product(alpha, cos), Product(beta, sin));
    QAddSaturates(Product(beta, cos), Product(alpha, sin));
  }

  /** Where the products fit, that is the plain rotation, saturated. */
  lemma ForwardClamps(alpha: Q31, beta: Q31, sin: Q31, cos: Q31)
    requires ProductsFit(alpha, beta, sin, cos)
    ensures Forward(alpha, beta, sin, cos) ==
            Pair(Saturated(TurnD(alpha, beta, sin, cos)), Saturated(TurnQ(alpha, beta, sin, cos)))
  {
    FourProducts(alpha, beta, sin, cos);
    QAddSaturates(Product(alpha, cos), Product(beta, sin));
    QAddSaturates(Product(beta, cos), Product(alpha, sin));
  }

  /** arm_inv_park_q31 on all inputs. */
  lemma InverseSaturates(d: Q31, q: Q31, sin: Q31, cos: Q31)
    ensures Inverse(d, q, sin, cos) ==
            Pair(Saturated(Truncated(d, cos) - Truncated(q, sin)), Saturated(Truncated(q, cos) + Truncated(d, sin)))
  {
    ProductIsTruncated(d, cos);
    ProductIsTruncated(q, sin);
    ProductIsTruncated(d, sin);
    ProductIsTruncated(q, cos);
    QAddSaturates(Product(d, cos), Product(q, sin));
    QAddSaturates(Product(q, cos), Product(d, sin));
  }

  lemma InverseClamps(d: Q31, q: Q31, sin: Q31, cos: Q31)
    requires ProductsFit(d, q, sin, cos)
    ensures Inverse(d, q, sin, cos) == Pair(Saturated(BackA(d, q, sin, cos)), Saturated(BackB(d, q, sin, cos)))
  {
    FourProducts(d, q, sin, cos);
    QAddSaturates(Product(d, cos), Product(q, sin));
    QAddSaturates(Product(q, cos), Product(d, sin));
  }

  // ---------- Rounding ----------

  function Abs(x: int): nat { if x < 0 then -x else x }

  /** What truncation drops from a product. */
  function Lost(a: int, b: int): (r: int)
    ensures 0 <= r < K
  {
    a * b - Scale(a, b) * K
  }

  /** A factor of -1.0 loses nothing. */
  lemma ScaleExact(a: int)
    ensures Lost(a, -K) == 0 && Scale(a, -K) == -a
  {
    DivUnique(a * -K, -a, 0, K);
  }

  /** What truncation drops from the two rotated coordinates. */
  function LostD(alpha: int, beta: int, sin: int, cos: int): int { Lost(alpha, cos) + Lost(beta, sin) }
  function LostQ(alpha: int, beta: int, sin: int, cos: int): int { Lost(beta, cos) - Lost(alpha, sin) }

  /** Losses `e` and `f` rotated on by `g` and `h`, and a loss `r` of their own, in units of 2^-62. */
  function Noise(e: int, f: int, g: int, h: int, r: int): int { 0 - e * g - f * h - r * K }

  function NoiseA(alpha: int, beta: int, sin: int, cos: int): int {
    var d, q := TurnD(alpha, beta, sin, cos), TurnQ(alpha, beta, sin, cos);
    Noise(LostD(alpha, beta, sin, cos), LostQ(alpha, beta, sin, cos), cos, -sin, Lost(d, cos) - Lost(q, sin))
  }

  function NoiseB(alpha: int, beta: int, sin: int, cos: int): int {
    var d, q := TurnD(alpha, beta, sin, cos), TurnQ(alpha, beta, sin, cos);
    Noise(LostD(alpha, beta, sin, cos), LostQ(alpha, beta, sin, cos), sin, cos, Lost(d, sin) + Lost(q, cos))
  }

  function Norm(sin: int, cos: int): int { cos * cos + sin * sin }

  lemma CrossTermsCancel(alpha: int, beta: int, s: int, c: int)
    ensures (alpha * c + beta * s) * c + (beta * c - alpha * s) * (-s) == alpha * Norm(s, c)
    ensures (alpha * c + beta * s) * s + (beta * c - alpha * s) * c == beta * Norm(s, c)
  {
  }

  /** A rotated coordinate with its rounding error, rotated on. */
  lemma RotateOn(d: int, u: int, e: int, f: int)
    requires d * K == u - e
    ensures d * f * K == u * f - e * f
  {
  }

  /** Two rotated coordinates with their losses, rotated on and added. */
  lemma Recombine(d: int, q: int, u: int, w: int, e: int, f: int, g: int, h: int, x: int, r: int)
    requires d * K == u - e && q * K == w - f && x * K == d * g + q * h - r
    ensures x * (K * K) == u * g + w * h + Noise(e, f, g, h, r)
  {
    RotateOn(d, u, e, g);
    RotateOn(q, w, f, h);
  }

  /** Rotated there and back, a coordinate is the original times `sin^2 + cos^2`, plus noise. */
  lemma BackIsScaled(alpha: int, beta: int, sin: int, cos: int)
    ensures var d, q := TurnD(alpha, beta, sin, cos), TurnQ(alpha, beta, sin, cos);
      && BackA(d, q, sin, cos) * (K * K) == alpha * Norm(sin, cos) + NoiseA(alpha, beta, sin, cos)
      && BackB(d, q, sin, cos) * (K * K) == beta * Norm(sin, cos) + NoiseB(alpha, beta, sin, cos)
  {
    var d, q := TurnD(alpha, beta, sin, cos), TurnQ(alpha, beta, sin, cos);
    var e, f := LostD(alpha, beta, sin, cos), LostQ(alpha, beta, sin, cos);
    var u, w := alpha * cos + beta * sin, beta * cos - alpha * sin;
    Recombine(d, q, u, w, e, f, cos, -sin, BackA(d, q, sin, cos), Lost(d, cos) - Lost(q, sin));
    Recombine(d, q, u, w, e, f, sin, cos, BackB(d, q, sin, cos), Lost(d, sin) + Lost(q, cos));
    CrossTermsCancel(alpha, beta, sin, cos);
  }

  /** A truncation error scaled by a 1.31 factor. */
  lemma ScaledLoss(r: int, k: int, f: int, g: int)
    requires -k <= r <= k && 0 <= k && -g <= f <= g
    ensures -k * g <= r * f <= k * g
  {
    if r >= 0 {
      MulMono(f, g, r);
      MulMono(-g, f, r);
    } else {
      MulMono(f, g, -r);
      MulMono(-g, f, -r);
    }
    MulMono(Abs(r), k, g);
  }

  /** How far `sin^2 + cos^2` stays below two: a factor other than -1.0 costs at least `2K - 1`. */
  lemma NormGap(f: int)
    requires -K <= f < K
    ensures 0 <= f * f <= K * K
    ensures f != -K ==> f * f <= (K - 1) * (K - 1)
  {
    ScaledLoss(f, K, f, K);
    if f != -K { ScaledLoss(f, K - 1, f, K - 1); }
    if f >= 0 { MulMono(0, f, f); } else { MulMono(f, 0, -f); }
  }

  /** The noise when the two losses are rotated on by factors of at most `g'` and `h'`. */
  lemma NoiseBound(e: int, f: int, g: int, h: int, r: int, e': int, f': int, g': int, h': int)
    requires -e' <= e <= e' && -f' <= f <= f' && 0 <= e' && 0 <= f' && -g' <= g <= g' && -h' <= h <= h'
    ensures -e' * g' - f' * h' - r * K <= Noise(e, f, g, h, r) <= e' * g' + f' * h' - r * K
  {
    ScaledLoss(e, e', g, g');
    ScaledLoss(f, f', h, h');
  }

  /** The noise when neither factor is -1.0. */
  lemma NoiseGeneral(alpha: int, beta: int, sin: Q31, cos: Q31)
    requires sin != -K && cos != -K
    ensures Abs(NoiseA(alpha, beta, sin, cos)) <= (K - 1) * (4 * K - 3)
    ensures -(K - 1) * (5 * K - 3) <= NoiseB(alpha, beta, sin, cos) <= (K - 1) * (3 * K - 3)
  {
    var d, q := TurnD(alpha, beta, sin, cos), TurnQ(alpha, beta, sin, cos);
    var e, f := LostD(alpha, beta, sin, cos), LostQ(alpha, beta, sin, cos);
    NoiseBound(e, f, cos, -sin, Lost(d, cos) - Lost(q, sin), 2 * (K - 1), K - 1, K - 1, K - 1);
    NoiseBound(e, f, sin, cos, Lost(d, sin) + Lost(q, cos), 2 * (K - 1), K - 1, K - 1, K - 1);
  }

  /** Half of the noise is absent when one factor is -1.0. */
  lemma NoiseSinExact(alpha: int, beta: int, cos: int)
    requires -K < cos < K
    ensures Abs(NoiseA(alpha, beta, -K, cos)) <= (K - 1) * (3 * K - 1)
    ensures Abs(NoiseB(alpha, beta, -K, cos)) <= (K - 1) * (3 * K - 1)
  {
    var d, q := TurnD(alpha, beta, -K, cos), TurnQ(alpha, beta, -K, cos);
    ScaleExact(alpha);
    ScaleExact(beta);
    ScaleExact(d);
    ScaleExact(q);
    NoiseBound(Lost(alpha, cos), Lost(beta, cos), cos, K, Lost(d, cos), K - 1, K - 1, K - 1, K);
    NoiseBound(Lost(alpha, cos), Lost(beta, cos), -K, cos, Lost(q, cos), K - 1, K - 1, K, K - 1);
  }

  lemma NoiseCosExact(alpha: int, beta: int, sin: int)
    requires -K < sin < K
    ensures Abs(NoiseA(alpha, beta, sin, -K)) <= (K - 1) * (3 * K - 1)
    ensures Abs(NoiseB(alpha, beta, sin, -K)) <= (K - 1) * (3 * K - 1)
  {
    var d, q := TurnD(alpha, beta, sin, -K), TurnQ(alpha, beta, sin, -K);
    ScaleExact(alpha);
    ScaleExact(beta);
    ScaleExact(d);
    ScaleExact(q);
    NoiseBound(Lost(beta, sin), -Lost(alpha, sin), -K, -sin, -Lost(q, sin), K - 1, K - 1, K, K - 1);
    NoiseBound(Lost(beta, sin), -Lost(alpha, sin), sin, -K, Lost(d, sin), K - 1, K - 1, K - 1, K);
  }

  lemma NoiseBothExact(alpha: int, beta: int)
    ensures NoiseA(alpha, beta, -K, -K) == 0 && NoiseB(alpha, beta, -K, -K) == 0
  {
    ScaleExact(alpha);
    ScaleExact(beta);
    ScaleExact(TurnD(alpha, beta, -K, -K));
    ScaleExact(TurnQ(alpha, beta, -K, -K));
  }

  /** The noise never fills the room the norm leaves to a coordinate below half of full scale. */
  lemma NoiseFits(alpha: int, beta: int, sin: Q31, cos: Q31)
    ensures 0 <= Norm(sin, cos) <= 2 * K * K
    ensures (HALF - 1) * Norm(sin, cos) + Abs(NoiseA(alpha, beta, sin, cos)) < K * K * K
    ensures (HALF - 1) * Norm(sin, cos) + NoiseB(alpha, beta, sin, cos) < K * K * K
    ensures -(HALF - 1) * Norm(sin, cos) + NoiseB(alpha, beta, sin, cos) > -(K + 1) * K * K
    ensures Abs(NoiseA(alpha, beta, sin, cos)) < 4 * K * K
    ensures -5 * K * K < NoiseB(alpha, beta, sin, cos) < 3 * K * K
  {
    NormGap(sin);
    NormGap(cos);
    if sin == -K && cos == -K {
      NoiseBothExact(alpha, beta);
    } else if sin == -K {
      NoiseSinExact(alpha, beta, cos);
    } else if cos == -K {
      NoiseCosExact(alpha, beta, sin);
    } else {
      NoiseGeneral(alpha, beta, sin, cos);
    }
  }

  /** A coordinate below half of full scale comes back inside full scale. */
  lemma InteriorFits(alpha: int, beta: int, sin: Q31, cos: Q31)
    ensures var d, q := TurnD(alpha, beta, sin, cos), TurnQ(alpha, beta, sin, cos);
      && (Abs(alpha) < HALF ==> InQ31(BackA(d, q, sin, cos)))
      && (Abs(beta) < HALF ==> InQ31(BackB(d, q, sin, cos)))
  {
    BackIsScaled(alpha, beta, sin, cos);
    NoiseFits(alpha, beta, sin, cos);
    if Abs(alpha) < HALF { ScaledLoss(alpha, HALF - 1, Norm(sin, cos), Norm(sin, cos)); }
    if Abs(beta) < HALF { ScaledLoss(beta, HALF - 1, Norm(sin, cos), Norm(sin, cos)); }
  }

  /** Scaling by a 1.31 factor never grows a magnitude. */
  lemma ScaleShrinks(a: int, f: Q31)
    ensures Abs(Scale(a, f)) <= Abs(a)
  {
    ScaledLoss(a, Abs(a), f, K);
    FloorLower(a * f, -(Abs(a) as int), K);
    FloorUpper(a * f, Abs(a), K);
  }

  /** Inside the diamond no product and no sum of the forward transform leaves its range. */
  lemma ForwardFits(alpha: int, beta: int, sin: Q31, cos: Q31)
    requires Abs(alpha) + Abs(beta) < K
    ensures var d, q := TurnD(alpha, beta, sin, cos), TurnQ(alpha, beta, sin, cos);
      && ProductsFit(alpha, beta, sin, cos) && ProductsFit(d, q, sin, cos)
      && Abs(d) <= Abs(alpha) + Abs(beta) && Abs(q) <= Abs(alpha) + Abs(beta)
  {
    var d, q := TurnD(alpha, beta, sin, cos), TurnQ(alpha, beta, sin, cos);
    ScaleShrinks(alpha, cos);
    ScaleShrinks(alpha, sin);
    ScaleShrinks(beta, cos);
    ScaleShrinks(beta, sin);
    ScaleShrinks(d, cos);
    ScaleShrinks(d, sin);
    ScaleShrinks(q, cos);
    ScaleShrinks(q, sin);
  }

  // ---------- The round trip ----------

  /**
   The vectors no rotation ever saturates: both coordinates below half of full scale, and of the lower edge -0.5 the
   part whose other coordinate is not positive.
   */
  predicate Roomy(alpha: int, beta: int) {
    || (-HALF < alpha < HALF && -HALF < beta < HALF)
    || (alpha == -HALF && -HALF < beta <= 0)
    || (beta == -HALF && -HALF < alpha <= 0)
  }

  /** Whenever the routines are the plain rotation, what comes back is off by the noise alone. */
  lemma FaithfulRoundTrip(alpha: Q31, beta: Q31, sin: Q31, cos: Q31)
    requires Faithful(alpha, beta, sin, cos)
    ensures CloseToScaled(alpha, beta, sin, cos)
  {
    BackIsScaled(alpha, beta, sin, cos);
    NoiseFits(alpha, beta, sin, cos);
  }

  /** The recovered coordinates are the originals times `sin^2 + cos^2`, in units of 2^-62, up to a few last places. */
  predicate CloseToScaled(alpha: Q31, beta: Q31, sin: Q31, cos: Q31) {
    var r := Forward(alpha, beta, sin, cos);
    && InQ31(r.first) && InQ31(r.second)
    && var b := Inverse(r.first, r.second, sin, cos);
       && Abs(b.first * (K * K) - alpha * Norm(sin, cos)) < 4 * K * K
       && -5 * K * K < b.second * (K * K) - beta * Norm(sin, cos) < 3 * K * K
  }

  // ---------- The lower edge ----------

  /** Factors next to 1.0 and -1.0 return the operand or one less. */
  lemma NearOne(a: int)
    requires -K < a < K
    ensures Scale(a, K - 1) == (if a > 0 then a - 1 else a) && Scale(a, 1 - K) == (if a < 0 then -a - 1 else -a)
  {
    if a > 0 { DivUnique(a * (K - 1), a - 1, K - a, K); } else { DivUnique(a * (K - 1), a, -a, K); }
    if a < 0 { DivUnique(a * (1 - K), -a - 1, K + a, K); } else { DivUnique(a * (1 - K), -a, a, K); }
  }

  /** What -0.5 loses to the factors around 1.0 and -1.0. */
  lemma HalfLoses(f: Q31)
    ensures f == K - 1 || f == 1 - K ==> Lost(-HALF, f) == HALF
    ensures f == K - 2 || f == 2 - K ==> Lost(-HALF, f) == 0
  {
    NearOne(-HALF);
  }

  /** The back-rotated coordinate stays in range when this much is left for the noise. */
  predicate LeavesRoom(norm: int, noise: int) { HALF * norm - noise < (K + 1) * K * K }

  /** Losses `e`, `f` go through factors `g`, `h`; `eg`, `fh` bound the products and `g2`, `h2` the squares. */
  lemma Room(e: int, f: int, g: int, h: int, r: int, eg: int, fh: int, g2: int, h2: int)
    requires e * g <= eg && f * h <= fh && g * g <= g2 && h * h <= h2
    requires HALF * (g2 + h2) + eg + fh + r * K < (K + 1) * K * K
    ensures LeavesRoom(g * g + h * h, Noise(e, f, g, h, r))
  {
  }

  lemma Square(f: int, g: int)
    requires -g <= f <= g
    ensures f * f <= g * g
  {
    ScaledLoss(f, g, f, g);
  }

  /** Losses of the two products that make up each rotated coordinate, and of the product rotated back. */
  predicate Losses(l1: int, l2: int, l3: int, l4: int) { 0 <= l1 < K && 0 <= l2 < K && 0 <= l3 < K && 0 <= l4 < K }

  /** First coordinate at -0.5, cosine not positive. */
  lemma AlphaEdgeBehind(l1: int, l2: int, l3: int, l4: int, r: int, sin: int, cos: int)
    requires Losses(l1, l2, l3, l4) && r < K && -K <= sin < K && -K <= cos <= 0
    requires sin == -K ==> l3 == 0
    requires sin == -K && cos == -K ==> l4 == 0 && r == 0
    ensures LeavesRoom(cos * cos + sin * sin, Noise(l1 + l2, l4 - l3, cos, -sin, r))
  {
    MulMono(cos, 0, l1 + l2);
    Square(cos, K);
    Square(sin, K);
    if sin == -K && cos != -K {
      Square(cos, K - 1);
      Room(l1 + l2, l4 - l3, cos, -sin, r, 0, (K - 1) * K, (K - 1) * (K - 1), K * K);
    } else if sin == -K {
      Room(l1 + l2, l4 - l3, cos, -sin, r, 0, 0, K * K, K * K);
    } else {
      ScaledLoss(l4 - l3, K - 1, -sin, K - 1);
      Square(sin, K - 1);
      Room(l1 + l2, l4 - l3, cos, -sin, r, 0, (K - 1) * (K - 1), K * K, (K - 1) * (K - 1));
    }
  }

  /** First coordinate at -0.5, cosine just below 1.0: here the sign of the other coordinate matters. */
  lemma AlphaEdgeAhead(l1: int, l2: int, l3: int, l4: int, r: int, sin: int)
    requires Losses(l1, l2, l3, l4) && r < K && -K <= sin < K && l1 == HALF
    requires sin == -K ==> l2 == 0 && l3 == 0 && l4 < HALF
    requires sin == K - 1 || sin == 1 - K ==> l3 == HALF
    ensures var cos := K - 1; LeavesRoom(cos * cos + sin * sin, Noise(l1 + l2, l4 - l3, cos, -sin, r))
  {
    var cos, e, f := K - 1, l1 + l2, l4 - l3;
    if sin == -K {
      Room(e, f, cos, -sin, r, HALF * (K - 1), (HALF - 1) * K, (K - 1) * (K - 1), K * K);
    } else if sin == K - 1 || sin == 1 - K {
      ScaledLoss(f, HALF, -sin, K - 1);
      Room(e, f, cos, -sin, r, (HALF + K - 1) * (K - 1), HALF * (K - 1), (K - 1) * (K - 1), (K - 1) * (K - 1));
    } else {
      ScaledLoss(f, K - 1, -sin, K - 2);
      Square(sin, K - 2);
      Room(e, f, cos, -sin, r, (HALF + K - 1) * (K - 1), (K - 1) * (K - 2), (K - 1) * (K - 1), (K - 2) * (K - 2));
    }
  }

  /** First coordinate at -0.5, any other cosine. */
  lemma AlphaEdgeBetween(l1: int, l2: int, l3: int, l4: int, r: int, sin: int, cos: int)
    requires Losses(l1, l2, l3, l4) && r < K && -K <= sin < K && 0 <= cos <= K - 2
    requires cos == K - 2 ==> l1 == 0
    ensures LeavesRoom(cos * cos + sin * sin, Noise(l1 + l2, l4 - l3, cos, -sin, r))
  {
    var e, f := l1 + l2, l4 - l3;
    ScaledLoss(f, K - 1, -sin, K);
    Square(sin, K);
    if cos == K - 2 {
      Room(e, f, cos, -sin, r, (K - 1) * (K - 2), (K - 1) * K, (K - 2) * (K - 2), K * K);
    } else {
      Square(cos, K - 3);
      ScaledLoss(e, 2 * (K - 1), cos, K - 3);
      Room(e, f, cos, -sin, r, 2 * (K - 1) * (K - 3), (K - 1) * K, (K - 3) * (K - 3), K * K);
    }
  }

  /** Second coordinate at -0.5, one factor -1.0. */
  lemma BetaEdgeExact(l1: int, l2: int, l3: int, l4: int, r7: int, r8: int, sin: int, cos: int)
    requires Losses(l1, l2, l3, l4) && 0 <= r7 < K && 0 <= r8 < K && -K <= sin < K && -K <= cos < K
    requires sin == -K || cos == -K
    requires sin == -K ==> l2 == 0 && l3 == 0 && r8 == 0
    requires cos == -K ==> l1 == 0 && l4 == 0 && r7 == 0
    requires sin == K - 1 ==> l2 == HALF && l3 < HALF
    requires sin == K - 2 ==> l2 == 0
    ensures LeavesRoom(sin * sin + cos * cos, Noise(l1 + l2, l4 - l3, sin, cos, r8 + r7))
  {
    var e, f, r := l1 + l2, l4 - l3, r8 + r7;
    if sin == -K && cos == -K {
      Room(e, f, sin, cos, r, 0, 0, K * K, K * K);
    } else if sin == -K {
      ScaledLoss(f, K - 1, cos, K - 1);
      Square(cos, K - 1);
      Room(e, f, sin, cos, r, 0, (K - 1) * (K - 1), K * K, (K - 1) * (K - 1));
    } else if sin == K - 1 {
      Room(e, f, sin, cos, r, HALF * (K - 1), (HALF - 1) * K, (K - 1) * (K - 1), K * K);
    } else if sin == K - 2 {
      Room(e, f, sin, cos, r, 0, (K - 1) * K, (K - 2) * (K - 2), K * K);
    } else if sin <= 0 {
      MulMono(sin, 0, e);
      Square(sin, K - 1);
      Room(e, f, sin, cos, r, 0, (K - 1) * K, (K - 1) * (K - 1), K * K);
    } else {
      ScaledLoss(e, K - 1, sin, K - 3);
      Square(sin, K - 3);
      Room(e, f, sin, cos, r, (K - 1) * (K - 3), (K - 1) * K, (K - 3) * (K - 3), K * K);
    }
  }

  /** Second coordinate at -0.5, sine next to 1.0 or -1.0, cosine further in. */
  lemma BetaEdgeSin(l1: int, l2: int, l3: int, l4: int, r7: int, r8: int, sin: int, cos: int)
    requires Losses(l1, l2, l3, l4) && 0 <= r7 < K && 0 <= r8 < K
    requires (sin == K - 1 && l2 == HALF && l3 < HALF) || sin == 1 - K
    requires 2 - K <= cos <= K - 2 && (cos == K - 2 || cos == 2 - K ==> l4 == 0)
    ensures LeavesRoom(sin * sin + cos * cos, Noise(l1 + l2, l4 - l3, sin, cos, r8 + r7))
  {
    var e, f, r := l1 + l2, l4 - l3, r8 + r7;
    Square(cos, K - 2);
    if sin == 1 - K {
      ScaledLoss(f, K - 1, cos, K - 2);
      Room(e, f, sin, cos, r, 0, (K - 1) * (K - 2), (K - 1) * (K - 1), (K - 2) * (K - 2));
    } else if cos == K - 2 || cos == 2 - K {
      ScaledLoss(f, HALF - 1, cos, K - 2);
      Room(e, f, sin, cos, r, (HALF + K - 1) * (K - 1), (HALF - 1) * (K - 2), (K - 1) * (K - 1), (K - 2) * (K - 2));
    } else {
      ScaledLoss(f, K - 1, cos, K - 3);
      Square(cos, K - 3);
      Room(e, f, sin, cos, r, (HALF + K - 1) * (K - 1), (K - 1) * (K - 3), (K - 1) * (K - 1), (K - 3) * (K - 3));
    }
  }

  /** Second coordinate at -0.5, sine further in. */
  lemma BetaEdgeInner(l1: int, l2: int, l3: int, l4: int, r7: int, r8: int, sin: int, cos: int)
    requires Losses(l1, l2, l3, l4) && 0 <= r7 < K && 0 <= r8 < K
    requires 2 - K <= sin <= K - 2 && (sin == K - 2 || sin == 2 - K ==> l2 == 0)
    requires -K < cos < K && (cos == K - 1 || cos == 1 - K ==> l4 == HALF)
    ensures LeavesRoom(sin * sin + cos * cos, Noise(l1 + l2, l4 - l3, sin, cos, r8 + r7))
  {
    var e, f, r := l1 + l2, l4 - l3, r8 + r7;
    Square(sin, K - 2);
    ScaledLoss(e, 2 * (K - 1), sin, K - 2);
    if cos == K - 1 || cos == 1 - K {
      ScaledLoss(f, HALF, cos, K - 1);
      if sin == K - 2 || sin == 2 - K {
        ScaledLoss(e, K - 1, sin, K - 2);
        Room(e, f, sin, cos, r, (K - 1) * (K - 2), HALF * (K - 1), (K - 2) * (K - 2), (K - 1) * (K - 1));
      } else {
        Square(sin, K - 3);
        ScaledLoss(e, 2 * (K - 1), sin, K - 3);
        Room(e, f, sin, cos, r, 2 * (K - 1) * (K - 3), HALF * (K - 1), (K - 3) * (K - 3), (K - 1) * (K - 1));
      }
    } else {
      Square(cos, K - 2);
      ScaledLoss(f, K - 1, cos, K - 2);
      Room(e, f, sin, cos, r, 2 * (K - 1) * (K - 2), (K - 1) * (K - 2), (K - 2) * (K - 2), (K - 2) * (K - 2));
    }
  }

  lemma AlphaEdgeLeavesRoom(beta: int, sin: Q31, cos: Q31)
    requires -HALF < beta <= 0
    ensures LeavesRoom(Norm(sin, cos), NoiseA(-HALF, beta, sin, cos))
  {
    var d, q := TurnD(-HALF, beta, sin, cos), TurnQ(-HALF, beta, sin, cos);
    var l1, l2, l3, l4 := Lost(-HALF, cos), Lost(beta, sin), Lost(-HALF, sin), Lost(beta, cos);
    var r5, r6 := Lost(d, cos), Lost(q, sin);
    HalfLoses(cos);
    HalfLoses(sin);
    ScaleExact(-HALF);
    ScaleExact(beta);
    ScaleExact(d);
    ScaleExact(q);
    NearOne(beta);
    if cos <= 0 {
      AlphaEdgeBehind(l1, l2, l3, l4, r5 - r6, sin, cos);
    } else if cos == K - 1 {
      AlphaEdgeAhead(l1, l2, l3, l4, r5 - r6, sin);
    } else {
      AlphaEdgeBetween(l1, l2, l3, l4, r5 - r6, sin, cos);
    }
  }

  lemma BetaEdgeLeavesRoom(alpha: int, sin: Q31, cos: Q31)
    requires -HALF < alpha <= 0 && !(Abs(sin) == K - 1 && Abs(cos) == K - 1)
    ensures LeavesRoom(Norm(sin, cos), NoiseB(alpha, -HALF, sin, cos))
  {
    var d, q := TurnD(alpha, -HALF, sin, cos), TurnQ(alpha, -HALF, sin, cos);
    var l1, l2, l3, l4 := Lost(alpha, cos), Lost(-HALF, sin), Lost(alpha, sin), Lost(-HALF, cos);
    var r7, r8 := Lost(q, cos), Lost(d, sin);
    HalfLoses(cos);
    HalfLoses(sin);
    ScaleExact(-HALF);
    ScaleExact(alpha);
    ScaleExact(d);
    ScaleExact(q);
    NearOne(alpha);
    if sin == -K || cos == -K {
      BetaEdgeExact(l1, l2, l3, l4, r7, r8, sin, cos);
    } else if Abs(sin) == K - 1 {
      BetaEdgeSin(l1, l2, l3, l4, r7, r8, sin, cos);
    } else {
      BetaEdgeInner(l1, l2, l3, l4, r7, r8, sin, cos);
    }
  }

  /** The remaining case is computed: both factors next to 1.0 or -1.0. */
  lemma BetaEdgeCorner(alpha: int, sin: Q31, cos: Q31)
    requires -HALF < alpha <= 0 && Abs(sin) == K - 1 && Abs(cos) == K - 1
    ensures BackB(TurnD(alpha, -HALF, sin, cos), TurnQ(alpha, -HALF, sin, cos), sin, cos) >= -K
  {
    NearOne(alpha);
    NearOne(-HALF);
    NearOne(TurnD(alpha, -HALF, sin, cos));
    NearOne(TurnQ(alpha, -HALF, sin, cos));
  }

  /** A coordinate at -0.5 that leaves room comes back inside full scale. */
  lemma RoomIsRange(x: int, norm: int, noise: int)
    requires x * (K * K) == -HALF * norm + noise && norm >= 0 && noise < 4 * K * K
    ensures LeavesRoom(norm, noise) ==> InQ31(x)
    ensures x < K
  {
    MulMono(0, norm, HALF);
  }

  /** A first coordinate at -0.5 comes back inside full scale too, when the other one is not positive. */
  lemma AlphaEdgeFits(beta: int, sin: Q31, cos: Q31)
    requires -HALF < beta <= 0
    ensures InQ31(BackA(TurnD(-HALF, beta, sin, cos), TurnQ(-HALF, beta, sin, cos), sin, cos))
  {
    var x := BackA(TurnD(-HALF, beta, sin, cos), TurnQ(-HALF, beta, sin, cos), sin, cos);
    BackIsScaled(-HALF, beta, sin, cos);
    NoiseFits(-HALF, beta, sin, cos);
    AlphaEdgeLeavesRoom(beta, sin, cos);
    RoomIsRange(x, Norm(sin, cos), NoiseA(-HALF, beta, sin, cos));
  }

  /** And so does a second one. */
  lemma BetaEdgeFits(alpha: int, sin: Q31, cos: Q31)
    requires -HALF < alpha <= 0
    ensures InQ31(BackB(TurnD(alpha, -HALF, sin, cos), TurnQ(alpha, -HALF, sin, cos), sin, cos))
  {
    var x := BackB(TurnD(alpha, -HALF, sin, cos), TurnQ(alpha, -HALF, sin, cos), sin, cos);
    BackIsScaled(alpha, -HALF, sin, cos);
    NoiseFits(alpha, -HALF, sin, cos);
    RoomIsRange(x, Norm(sin, cos), NoiseB(alpha, -HALF, sin, cos));
    if Abs(sin) == K - 1 && Abs(cos) == K - 1 {
      BetaEdgeCorner(alpha, sin, cos);
    } else {
      BetaEdgeLeavesRoom(alpha, sin, cos);
    }
  }

  lemma RoomyNeverSaturates(alpha: int, beta: int, sin: Q31, cos: Q31)
    requires Roomy(alpha, beta)
    ensures NothingSaturates(alpha, beta, sin, cos)
  {
    ForwardFits(alpha, beta, sin, cos);
    InteriorFits(alpha, beta, sin, cos);
    if alpha == -HALF { AlphaEdgeFits(beta, sin, cos); }
    if beta == -HALF { BetaEdgeFits(alpha, sin, cos); }
  }

  /** A rotation that saturates a given vector outside. */
  function BadSin(alpha: int, beta: int): Q31 { if beta == -HALF && 0 < alpha < HALF then K - 1 else -K }
  function BadCos(alpha: int, beta: int): Q31 { if alpha == -HALF && 0 < beta < HALF then K - 1 else -K }

  lemma OutsideSaturates(alpha: Q31, beta: Q31)
    requires !Roomy(alpha, beta)
    ensures !InRange(alpha, beta, BadSin(alpha, beta), BadCos(alpha, beta))
  {
    var sin, cos := BadSin(alpha, beta), BadCos(alpha, beta);
    var d, q := TurnD(alpha, beta, sin, cos), TurnQ(alpha, beta, sin, cos);
    ScaleExact(alpha);
    ScaleExact(beta);
    ScaleExact(d);
    ScaleExact(q);
    if sin == K - 1 || cos == K - 1 {
      NearOne(alpha);
      NearOne(beta);
      NearOne(d);
    }
  }

  /** The routines return 1.31 values, so they cannot be a rotation that leaves the range. */
  lemma FaithfulIsInRange(alpha: Q31, beta: Q31, sin: Q31, cos: Q31)
    requires Faithful(alpha, beta, sin, cos)
    ensures InRange(alpha, beta, sin, cos)
  {
    var d, q := TurnD(alpha, beta, sin, cos), TurnQ(alpha, beta, sin, cos);
    QAddSaturates(Product(d, cos), Product(q, sin));
    QAddSaturates(Product(q, cos), Product(d, sin));
  }

  lemma RoomyIsFaithful(alpha: Q31, beta: Q31, sin: Q31, cos: Q31)
    requires Roomy(alpha, beta)
    ensures Faithful(alpha, beta, sin, cos)
  {
    RoomyNeverSaturates(alpha, beta, sin, cos);
    RoutinesAreRotation(alpha, beta, sin, cos);
  }

  lemma OutsideIsNotFaithful(alpha: Q31, beta: Q31)
    requires !Roomy(alpha, beta)
    ensures !Faithful(alpha, beta, BadSin(alpha, beta), BadCos(alpha, beta))
  {
    OutsideSaturates(alpha, beta);
    var sin, cos := BadSin(alpha, beta), BadCos(alpha, beta);
    if Faithful(alpha, beta, sin, cos) { FaithfulIsInRange(alpha, beta, sin, cos); }
  }

  /**
   Exactly which vectors survive: the routines are the plain rotation for every sine and cosine if and only if both
   coordinates lie below half of full scale, the lower edge -0.5 being admitted where the other coordinate is not
   positive.
   */
  lemma FaithfulIff(alpha: Q31, beta: Q31)
    ensures (forall sin: Q31, cos: Q31 :: Faithful(alpha, beta, sin, cos)) <==> Roomy(alpha, beta)
  {
    if Roomy(alpha, beta) {
      forall sin: Q31, cos: Q31 ensures Faithful(alpha, beta, sin, cos) { RoomyIsFaithful(alpha, beta, sin, cos); }
    } else {
      OutsideIsNotFaithful(alpha, beta);
    }
  }

  /**
   Park and inverse Park undo each other: for every such vector and every sine and cosine the recovered coordinates are
   the originals times `sin^2 + cos^2`, within less than 4 units in the last place for the first and between -5 and 3
   for the second.
   */
  lemma RoundTrip(alpha: Q31, beta: Q31, sin: Q31, cos: Q31)
    requires Roomy(alpha, beta)
    ensures CloseToScaled(alpha, beta, sin, cos)
  {
    RoomyIsFaithful(alpha, beta, sin, cos);
    FaithfulRoundTrip(alpha, beta, sin, cos);
  }
}
