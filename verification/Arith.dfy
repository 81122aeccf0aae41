/** Division and multiplication facts the fixed-point and bit-field proofs share. */
module Arith {

  lemma MulMono(a: int, b: int, c: int)
    requires a <= b && 0 <= c
    ensures a * c <= b * c
  {
  }

  lemma MulMonoStrict(a: int, b: int, c: int)
    requires a < b && 0 < c
    ensures a * c < b * c
  {
  }

  /** A quotient and remainder in range are the quotient and remainder. */
  lemma DivUnique(x: int, q: int, r: int, d: int)
    requires 0 <= r < d && x == q * d + r
    ensures x / d == q && x % d == r
  {
    var q', r' := x / d, x % d;
    assert x == q' * d + r';
    assert (q - q') * d == r' - r;
    if q > q' { MulMono(1, q - q', d); } else if q < q' { MulMono(1, q' - q, d); }
  }

  lemma SmallMod(x: int, d: int)
    requires 0 <= x < d
    ensures x % d == x
  {
  }

  /** The field `f` of width `w` at position `u` of a packed word. */
  lemma Field(v: int, hi: int, f: int, lo: int, u: int, w: int)
    requires 0 <= f < w && 0 <= lo < u && v == (hi * w + f) * u + lo
    ensures v / u % w == f
  {
    DivUnique(v, hi * w + f, lo, u);
    DivUnique(hi * w + f, hi, f, w);
  }

  /** `x >> n` bounds: the floor quotient brackets the exact one. */
  lemma FloorBounds(x: int, d: int)
    requires d > 0
    ensures x / d * d <= x < x / d * d + d
  {
  }

  lemma FloorMono(x: int, y: int, d: int)
    requires d > 0 && x <= y
    ensures x / d <= y / d
  {
    assert (y / d + 1) * d == y / d * d + d;
    if x / d > y / d { MulMono(y / d + 1, x / d, d); }
  }

  /** A floor quotient is below any integer bound its numerator is below. */
  lemma FloorUpper(x: int, q: int, d: int)
    requires d > 0 && x < (q + 1) * d
    ensures x / d <= q
  {
    if x / d > q { MulMono(q + 1, x / d, d); }
  }

  lemma FloorLower(x: int, q: int, d: int)
    requires d > 0 && q * d <= x
    ensures q <= x / d
  {
    assert (x / d + 1) * d == x / d * d + d;
    if x / d < q { MulMono(x / d + 1, q, d); }
  }

  /** Whole multiples of the divisor pass through the floor. */
  lemma FloorShift(x: int, k: int, d: int)
    requires d > 0
    ensures (x + k * d) / d == x / d + k
  {
    assert x + k * d == (x / d + k) * d + x % d;
    DivUnique(x + k * d, x / d + k, x % d, d);
  }

  function Pow2(n: nat): (r: nat)
    ensures r > 0
  {
    if n == 0 then 1 else 2 * Pow2(n - 1)
  }

  lemma {:induction false} Pow2Add(m: nat, n: nat)
    ensures Pow2(m + n) == Pow2(m) * Pow2(n)
  {
    if m > 0 {
      Pow2Add(m - 1, n);
      assert Pow2(m + n) == 2 * Pow2(m - 1 + n);
      assert 2 * (Pow2(m - 1) * Pow2(n)) == (2 * Pow2(m - 1)) * Pow2(n);
    }
  }

  lemma {:induction false} Pow2Mono(m: nat, n: nat)
    requires m <= n
    ensures Pow2(m) <= Pow2(n)
    decreases n - m
  {
    if m < n { Pow2Mono(m, n - 1); }
  }

  lemma Pow2Values()
    ensures Pow2(5) == 32 && Pow2(8) == 0x100 && Pow2(14) == 0x4000 && Pow2(15) == 0x8000
    ensures Pow2(17) == 0x2_0000 && Pow2(18) == 0x4_0000 && Pow2(19) == 0x8_0000
    ensures Pow2(20) == 0x10_0000 && Pow2(22) == 0x40_0000 && Pow2(25) == 0x200_0000
    ensures Pow2(29) == 0x2000_0000 && Pow2(30) == 0x4000_0000 && Pow2(31) == 0x8000_0000 && Pow2(32) == 0x1_0000_0000
  {
  }

  /** A multiple of `d` below `e * d` leaves room for one more `d`. */
  lemma MultipleBelow(x: nat, d: nat, e: nat)
    requires d > 0 && x % d == 0 && x < e * d
    ensures x + d <= e * d
  {
    var q := x / d;
    assert x == q * d;
    if q >= e { MulMono(e, q, d); }
    MulMono(q + 1, e, d);
    assert (q + 1) * d == q * d + d;
  }

  // ---------- Counting modulo a length ----------

  /** One conditional subtraction is one step modulo `m`, as long as the step is at most `m`. */
  lemma StepModulo(a: int, step: int, m: int)
    requires m > 0 && 0 <= step <= m
    ensures var w := a % m + step; (a + step) % m == if w >= m then w - m else w
  {
    var q, r := a / m, a % m;
    assert a == q * m + r;
    if r + step >= m {
      assert (q + 1) * m == q * m + m;
      DivUnique(a + step, q + 1, r + step - m, m);
    } else {
      DivUnique(a + step, q, r + step, m);
    }
  }

  lemma ModAdd(a: int, k: int, m: int)
    requires m > 0
    ensures (a % m + k) % m == (a + k) % m
  {
    var q, s := a / m, a % m + k;
    assert a == q * m + a % m && s == s / m * m + s % m;
    assert (q + s / m) * m == q * m + s / m * m;
    DivUnique(a + k, q + s / m, s % m, m);
  }

  lemma ModShift(a: int, m: int)
    requires m > 0
    ensures (a + m) % m == a % m
  {
    var q, r := a / m, a % m;
    assert a + m == (q + 1) * m + r;
    DivUnique(a + m, q + 1, r, m);
  }

  /** Numbers less than `m` apart have different residues. */
  lemma ResiduesDiffer(x: int, y: int, m: int)
    requires x < y < x + m
    ensures x % m != y % m
  {
    if x % m == y % m {
      var p, q := x / m, y / m;
      assert x == p * m + x % m && y == q * m + y % m;
      assert (q - p) * m == y - x;
      if q - p >= 1 { MulMono(1, q - p, m); } else { MulMono(q - p, 0, m); }
    }
  }

  // ---------- Two-digit numbers: a high digit below `p` and a low digit below `s` ----------

  lemma TwoDigitBound(hi: int, lo: int, p: int, s: int)
    requires 0 <= hi < p && 0 <= lo < s
    ensures hi * s + lo < p * s
  {
    MulMono(hi + 1, p, s);
    assert (hi + 1) * s == hi * s + s;
  }

  lemma TwoDigitOrder(hi: int, lo: int, hi': int, lo': int, s: int)
    requires 0 <= lo < s && 0 <= lo' < s
    ensures hi * s + lo < hi' * s + lo' <==> hi < hi' || (hi == hi' && lo < lo')
  {
    if hi < hi' {
      MulMono(hi + 1, hi', s);
      assert (hi + 1) * s == hi * s + s;
    } else if hi' < hi {
      MulMono(hi' + 1, hi, s);
      assert (hi' + 1) * s == hi' * s + s;
    }
  }

  /** The two low digits of a number are the number modulo `p * s`. */
  lemma TwoDigitSplit(x: int, p: int, s: int)
    requires p > 0 && s > 0
    ensures p * s > 0 && x % (p * s) == x / s % p * s + x % s
  {
    var q, lo := x / s, x % s;
    var top, hi := q / p, q % p;
    MulMonoStrict(0, p, s);
    assert x == q * s + lo && q == top * p + hi;
    assert x == (top * p + hi) * s + lo;
    assert (top * p + hi) * s == top * (p * s) + hi * s;
    TwoDigitBound(hi, lo, p, s);
    MulMono(0, hi, s);
    DivUnique(x, top, hi * s + lo, p * s);
  }

  lemma ScaleMod(x: int, p: int, s: int)
    requires p > 0 && s > 0
    ensures p * s > 0 && x * s % (p * s) == x % p * s && x % p * s / s == x % p
  {
    DivUnique(x * s, x, 0, s);
    TwoDigitSplit(x * s, p, s);
    DivUnique(x % p * s, x % p, 0, s);
  }
}
