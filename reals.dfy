/** Steps of real arithmetic with products and quotients, each stated over
    plain variables so that the proofs about the model can take them one at
    a time. */
module Reals {

  lemma SquarePositive(x: real)
    requires x != 0.0
    ensures x * x > 0.0
  {
    if x < 0.0 {
      assert x * x == (-x) * (-x);
    }
  }

  lemma PositiveTimesSquare(f: real, g: real)
    requires f > 0.0 && g != 0.0
    ensures f * (g * g) > 0.0
  {
    SquarePositive(g);
  }

  /** A quotient is determined by cross-multiplication. */
  lemma QuotientUnique(n: real, d: real, a: real)
    requires d > 0.0 && a * d == n
    ensures n / d == a
  {
  }

  /** `e - c^2 e == (1 - c^2) e`, with the terms given by name. */
  lemma Factor(v: real, e: real, es: real, ez: real, c: real, x: real)
    requires v == e + es && es == (-1.0) * ez && ez == c * (c * e) && x + c * c == 1.0
    ensures v == x * e
  {
  }

  /** `y (x e) == (x y) e`, with the terms given by name. */
  lemma Associate(w: real, x: real, y: real, e: real, z: real)
    requires w == y * (x * e) && z == x * y
    ensures w == z * e
  {
  }

  /** Horner steps add up: `(x + c u) + (y + c v)` is `(x + y) + c (u + v)`. */
  lemma AddHorner(w: real, x: real, y: real, c: real, s: real, u: real, v: real, pu: real, pv: real)
    requires w == (x + y) + c * s && s == u + v && pu == x + c * u && pv == y + c * v
    ensures w == pu + pv
  {
  }

  /** Scaling commutes with one step of Horner's scheme. */
  lemma ScaleHorner(w: real, x: real, y: real, c: real, s: real, e: real, v: real)
    requires w == x * y + c * s && s == x * e && v == y + c * e
    ensures w == x * v
  {
  }

  /** Weighted sums add up: `(x m + u) + (y m + v)` is `(x + y) m + (u + v)`. */
  lemma AddSum(w: real, x: real, y: real, m: real, s: real, u: real, v: real, pu: real, pv: real)
    requires w == (x + y) * m + s && s == u + v && pu == x * m + u && pv == y * m + v
    ensures w == pu + pv
  {
  }

  /** `x (m0 - m2) + (r0 - r2) == (x m0 + r0) - (x m2 + r2)`. */
  lemma SubSum(w: real, x: real, m: real, m0: real, m2: real, r: real, r0: real, r2: real, u: real, v: real)
    requires w == x * m + r && m == m0 - m2 && r == r0 - r2 && u == x * m0 + r0 && v == x * m2 + r2
    ensures w == u - v
  {
  }

  /** Scaling commutes with one step of a weighted sum. */
  lemma ScaleSum(w: real, x: real, y: real, m: real, s: real, r: real, v: real)
    requires w == (x * y) * m + s && s == x * r && v == y * m + r
    ensures w == x * v
  {
  }

  lemma Swap(x: real, p: real, y: real, q: real)
    ensures (x * p) * (y * q) == (x * y) * (p * q)
  {
  }

  /** The square of `h * q / f * p`, multiplied by `f^2`, when `q^2 == w^2`. */
  lemma SquarePart(h: real, q: real, f: real, p: real, w: real)
    requires f != 0.0 && q * q == w * w
    ensures (h * q / f * p) * (h * q / f * p) * (f * f) == (h * h) * (w * w) * (p * p)
  {
    var v := h * q / f;
    assert v * f == h * q;
    assert (v * p) * (v * p) * (f * f) == (v * f) * (v * f) * (p * p);
    assert (h * q) * (h * q) == (h * h) * (q * q);
  }

  lemma QuotientNonzero(h: real, q: real, f: real, p: real)
    requires h != 0.0 && q != 0.0 && f != 0.0 && p != 0.0
    ensures h * q / f * p != 0.0
  {
    var v := h * q / f;
    assert v * f == h * q;
    assert v != 0.0;
  }

  /** `1/(2 pi) * (2w * pi^2) == w * pi`. */
  lemma PiPart(pi: real, w: real)
    requires pi > 0.0
    ensures 1.0 / (2.0 * pi) * ((2.0 * w) * (pi * pi)) == w * pi
  {
    var r := 1.0 / (2.0 * pi);
    assert r * (2.0 * pi) == 1.0;
    assert r * ((2.0 * w) * (pi * pi)) == (r * (2.0 * pi)) * (w * pi);
  }

  /** `(w pi) / (f g^2) == f / (h^2 w)` when `g^2 f^2 == h^2 w^2 pi`. */
  lemma Final(f: real, g: real, h: real, w: real, pi: real)
    requires f >= 1.0 && h >= 1.0 && w > 0.0 && pi > 0.0 && g != 0.0
    requires (g * g) * (f * f) == (h * h) * (w * w) * pi
    ensures (w * pi) / (f * (g * g)) == f / ((h * h) * w)
  {
    SquarePositive(g);
    assert f * (g * g) > 0.0;
    assert (h * h) * w > 0.0;
    var b := f / ((h * h) * w);
    assert b * ((h * h) * w) == f;
    assert (b * (f * (g * g))) * f == (b * ((h * h) * w)) * (w * pi);
    assert (b * (f * (g * g))) * f == (w * pi) * f;
    assert b * (f * (g * g)) == w * pi;
    QuotientUnique(w * pi, f * (g * g), b);
  }

  /** `f / (h^2 w)`. */
  function Ratio(f: real, h: real, w: real): real
    requires h != 0.0 && w > 0.0
  {
    SquarePositive(h);
    f / ((h * h) * w)
  }

  lemma RatioPositive(f: real, h: real, w: real)
    requires f > 0.0 && h != 0.0 && w > 0.0
    ensures Ratio(f, h, w) > 0.0
  {
    SquarePositive(h);
    assert (h * h) * w > 0.0;
  }

  lemma ProductAtLeastOne(k: real, h: real)
    requires k >= 1.0 && h >= 1.0
    ensures k * h >= 1.0
  {
  }

  /** One step of `i! / (((i/2)!)^2 * 2^i)` from `i = 2k - 2` to `i = 2k`:
      the factor is `(2k - 1) / (2k)`. */
  lemma CosMeanStep(k: real, f: real, h: real, w: real)
    requires k >= 1.0 && f >= 1.0 && h >= 1.0 && w > 0.0
    ensures k * h >= 1.0
    ensures Ratio((2.0 * k) * ((2.0 * k - 1.0) * f), k * h, 2.0 * (2.0 * w))
      == (2.0 * k - 1.0) / (2.0 * k) * Ratio(f, h, w)
  {
    ProductAtLeastOne(k, h);
    var b := f / ((h * h) * w);
    assert (h * h) * w > 0.0;
    assert b * ((h * h) * w) == f;
    var c := (2.0 * k - 1.0) / (2.0 * k);
    assert c * (2.0 * k) == 2.0 * k - 1.0;
    var d := (k * h) * (k * h) * (2.0 * (2.0 * w));
    assert d == (2.0 * k) * (2.0 * k) * ((h * h) * w);
    assert d > 0.0;
    assert (c * b) * d == (c * (2.0 * k)) * (2.0 * k) * (b * ((h * h) * w));
    assert (c * b) * d == (2.0 * k) * ((2.0 * k - 1.0) * f);
    QuotientUnique((2.0 * k) * ((2.0 * k - 1.0) * f), d, c * b);
  }

  /** A quotient `a b / d` whose factor `b` and denominator `d` gain the
      factors `x` and `y` over `o` and `e` gains the factor `x / y`. */
  lemma ReduceQuotient(a: int, b: int, o: int, d: int, e: int, x: int, y: int)
    requires e >= 1 && y >= 1 && b == x * o && d == y * e
    ensures (a * b) as real / d as real == x as real / y as real * ((a * o) as real / e as real)
    ensures (b * a) as real / d as real == x as real / y as real * ((o * a) as real / e as real)
  {
    assert a * b == x * (a * o) && b * a == a * b && o * a == a * o;
    var r := x as real / y as real;
    var q := (a * o) as real / e as real;
    assert r * y as real == x as real;
    assert q * e as real == (a * o) as real;
    assert d as real == y as real * e as real;
    assert (a * b) as real == x as real * (a * o) as real;
    assert (r * q) * d as real == (r * y as real) * (q * e as real);
  }

  /** `(s q) == k (p q)` as reals when `s == k p`. */
  lemma ScaledProduct(p: int, q: int, k: int, s: int)
    requires s == k * p
    ensures (s * q) as real == k as real * (p * q) as real
    ensures (q * s) as real == k as real * (q * p) as real
  {
    assert s * q == k * (p * q) && q * s == k * (q * p);
  }

  lemma CastProduct(x: int, y: int)
    ensures (x * y) as real == x as real * y as real
  {
  }

  /** `p2 q / e == p q / d - p q2 / e'` when `p2 == x p`, `q2 == y q` and
      `e == e' == (x + y) d`. */
  lemma PythagoreanFraction(p: int, q: int, p2: int, q2: int, d: int, e: int, e': int, x: int, y: int, z: int, z': int)
    requires d >= 1 && x >= 1 && y >= 1 && z == x + y && z' == z
    requires p2 == x * p && q2 == y * q && e == z * d && e' == z' * d
    ensures (p2 * q) as real / e as real == (p * q) as real / d as real - (p * q2) as real / e' as real
  {
    ScaledProduct(p, q, x, p2);
    ScaledProduct(q, p, y, q2);
    CastProduct(z, d);
    PythagoreanQuotient((p * q) as real, d as real, x as real, y as real, z as real,
      (p2 * q) as real, (p * q2) as real, e as real, e' as real);
  }

  /** `x n / e == n / d - y n / e` when `e == (x + y) d`. */
  lemma PythagoreanQuotient(n: real, d: real, x: real, y: real, z: real, u: real, v: real, e: real, e': real)
    requires d >= 1.0 && z >= 1.0 && z == x + y && e == z * d && e' == e && u == x * n && v == y * n
    ensures u / e == n / d - v / e'
  {
    var f := n / d / z;
    assert f * z == n / d;
    assert (n / d) * d == n;
    assert u == (x * f) * e;
    assert v == (y * f) * e;
    assert x * f + y * f == n / d;
  }

  /** The algebra of `_cosintegral`: with `g = h q / f * p`, `p^2 = pi` and
      `q^2 = w^2`, the expression `1/(2 pi) * w1 * pi^2 / (f g^2)` is `f / (h^2 w)`. */
  lemma CosIntegralAlgebra(f: real, h: real, q: real, w: real, w1: real, p: real, pi: real)
    requires f >= 1.0 && h >= 1.0 && w > 0.0 && p > 0.0 && pi > 0.0
    requires q * q == w * w && w1 == 2.0 * w && p * p == pi
    ensures h * q / f * p != 0.0
    ensures 1.0 / (2.0 * pi) * (w1 * (pi * pi)) / (f * ((h * q / f * p) * (h * q / f * p)))
      == Ratio(f, h, w)
  {
    assert q != 0.0 by {
      SquarePositive(w);
    }
    QuotientNonzero(h, q, f, p);
    assert h * q / f * p != 0.0;
    GammaPart(f, h, q, w, p, pi);
    PiPart(pi, w);
  }

  lemma GammaPart(f: real, h: real, q: real, w: real, p: real, pi: real)
    requires f >= 1.0 && h >= 1.0 && w > 0.0 && pi > 0.0 && h * q / f * p != 0.0
    requires q * q == w * w && p * p == pi
    ensures (w * pi) / (f * ((h * q / f * p) * (h * q / f * p))) == f / ((h * h) * w)
  {
    SquarePart(h, q, f, p, w);
    assert (h * q / f * p) * (h * q / f * p) * (f * f) == (h * h) * (w * w) * pi;
    Final(f, h * q / f * p, h, w, pi);
  }
}
