/** Averaging over the azimuth `phi_s` (rt1/rt1.py:111-143): the closed form
    `_cosintegral` / `_gammafunkt`, and the three substitution passes that
    turn a polynomial in `sin(phi_s)`, `cos(phi_s)` into a number.

    `pi` is not a real literal here: it enters as `sqrtPi * sqrtPi` for an
    arbitrary positive `sqrtPi`, and every statement holds for each such
    value. */
module Azimuth {
  import opened Polynomials
  import opened Substitution
  import opened Trig
  import opened Reals
  import opened Means

  /** `n!`, exact. */
  function Fact(n: nat): (r: real)
    ensures r >= 1.0
  {
    if n == 0 then 1.0 else n as real * Fact(n - 1)
  }

  lemma {:induction false} PowPositive(x: real, n: nat)
    requires x > 0.0
    ensures Pow(x, n) > 0.0
  {
    if n > 0 {
      PowPositive(x, n - 1);
    }
  }

  lemma {:induction false} PowProduct(x: real, y: real, n: nat)
    ensures Pow(x, n) * Pow(y, n) == Pow(x * y, n)
  {
    if n > 0 {
      PowProduct(x, y, n - 1);
      Swap(x, Pow(x, n - 1), y, Pow(y, n - 1));
    }
  }

  /** `((-4)^(x/2))^2 == (2^x)^2` for an even `x`. */
  lemma FourPowers(x: nat)
    requires x % 2 == 0
    ensures Pow(-4.0, x / 2) * Pow(-4.0, x / 2) == Pow(2.0, x) * Pow(2.0, x)
  {
    var j := x / 2;
    assert 2 * j == x;
    PowProduct(-4.0, -4.0, j);
    PowSquare(2.0, j);
    PowProduct(4.0, 4.0, j);
  }

  lemma {:induction false} PowNonzero(x: real, n: nat)
    requires x != 0.0
    ensures Pow(x, n) != 0.0
  {
    if n > 0 {
      PowNonzero(x, n - 1);
    }
  }

  /** `pi` and its square root, as the two arguments `pi`, `sqrtPi` of the
      members below. */
  predicate IsPi(pi: real, sqrtPi: real)
  {
    pi > 0.0 && sqrtPi > 0.0 && sqrtPi * sqrtPi == pi
  }

  /** `_gammafunkt(x)` for an even `x` (the only case `_cosintegral` uses):
      `(x/2)! * (-4)^(x/2) / x! * sqrt(pi)`. */
  function GammaFunkt(x: nat, sqrtPi: real): real
    requires x % 2 == 0
  {
    Fact(x / 2) * Pow(-4.0, x / 2) / Fact(x) * sqrtPi
  }

  /** `_gammafunkt(x)` is never zero. */
  lemma GammaNonzero(x: nat, sqrtPi: real)
    requires x % 2 == 0 && sqrtPi > 0.0
    ensures GammaFunkt(x, sqrtPi) != 0.0
  {
    PowNonzero(-4.0, x / 2);
    QuotientNonzero(Fact(x / 2), Pow(-4.0, x / 2), Fact(x), sqrtPi);
  }

  /** The closed form of the average of `cos^i` for an even `i`:
      `i! / (((i/2)!)^2 * 2^i)`. */
  function CosMean(i: nat): (r: real)
    ensures r > 0.0
  {
    PowPositive(2.0, i);
    RatioPositive(Fact(i), Fact(i / 2), Pow(2.0, i));
    Ratio(Fact(i), Fact(i / 2), Pow(2.0, i))
  }

  /** `_cosintegral(i)`: zero for an odd `i`; for an even `i` the expression
      `1/(2 pi) * 2^(i+1) * pi^2 / (i! * _gammafunkt(i)^2)`. */
  function CosIntegral(i: nat, pi: real, sqrtPi: real): (r: real)
    requires IsPi(pi, sqrtPi)
  {
    if i % 2 == 0 then
      var g := GammaFunkt(i, sqrtPi);
      GammaNonzero(i, sqrtPi);
      PositiveTimesSquare(Fact(i), g);
      1.0 / (2.0 * pi) * (Pow(2.0, i + 1) * (pi * pi)) / (Fact(i) * (g * g))
    else
      0.0
  }

  /** In `_cosintegral`, `pi` cancels: what is left is the closed form
      `i! / (((i/2)!)^2 * 2^i)` for an even `i`, and 0 for an odd one. */
  lemma CosIntegralClosedForm(i: nat, pi: real, sqrtPi: real)
    requires IsPi(pi, sqrtPi)
    ensures CosIntegral(i, pi, sqrtPi) == if i % 2 == 0 then CosMean(i) else 0.0
  {
    if i % 2 == 0 {
      FourPowers(i);
      PowPositive(2.0, i);
      CosIntegralAlgebra(Fact(i), Fact(i / 2), Pow(-4.0, i / 2), Pow(2.0, i), Pow(2.0, i + 1), sqrtPi, pi);
    }
  }

  /** The closed form obeys the reduction formula of the cosine power. */
  lemma CosMeanReduction(i: nat)
    requires i % 2 == 0 && i >= 2
    ensures CosMean(i) == (i - 1) as real / i as real * CosMean(i - 2)
  {
    var k := i / 2;
    var kr := k as real;
    var f, h, w := Fact(i - 2), Fact(k - 1), Pow(2.0, i - 2);
    PowPositive(2.0, i - 2);
    assert (i - 2) / 2 == k - 1;
    assert Fact(i) == (2.0 * kr) * ((2.0 * kr - 1.0) * f);
    assert Fact(k) == kr * h;
    assert Pow(2.0, i) == 2.0 * (2.0 * w);
    CosMeanStep(kr, f, h, w);
    assert (i - 1) as real == 2.0 * kr - 1.0 && i as real == 2.0 * kr;
  }

  /** The closed form is the reference mean of `cos^i`. */
  lemma {:induction false} CosMeanIsMean(i: nat)
    requires i % 2 == 0
    ensures Mean(0, i) == CosMean(i)
  {
    if i >= 2 {
      var j := i - 2;
      CosMeanIsMean(j);
      CosMeanReduction(i);
      CosineReduction(0, j);
    }
  }

  /** `_cosintegral(i)` is the average of `cos^i` over one period. */
  lemma CosIntegralIsMean(i: nat, pi: real, sqrtPi: real)
    requires IsPi(pi, sqrtPi)
    ensures CosIntegral(i, pi, sqrtPi) == Mean(0, i)
  {
    CosIntegralClosedForm(i, pi, sqrtPi);
    if i % 2 == 0 {
      CosMeanIsMean(i);
    } else {
      OddMean(0, i);
    }
  }

  /** Two values: the average of `cos^2` is 1/2 and that of `cos^4` is 3/8. */
  lemma CosIntegralValues(pi: real, sqrtPi: real)
    requires IsPi(pi, sqrtPi)
    ensures CosIntegral(2, pi, sqrtPi) == 0.5
    ensures CosIntegral(4, pi, sqrtPi) == 0.375
  {
    CosIntegralIsMean(2, pi, sqrtPi);
    CosIntegralIsMean(4, pi, sqrtPi);
    assert Mean(0, 2) == 0.5;
    assert Mean(0, 4) == 0.375;
  }

  /** The averages `b -> Mean(a, b)` of `s^a * c^b` for a fixed `a`. */
  function MeanOf(a: nat): nat -> real
  {
    (b: nat) => Mean(a, b)
  }

  /** The average of `p[0] * s^a * c^b + p[1] * s^a * c^(b+1) + ...`. */
  function RowMeanFrom(p: Poly, a: nat, b: nat): real
  {
    Dot(p, MeanOf(a), b)
  }

  /** The average over one period of the rows `k..` of `t`. */
  function TrigMeanFrom(t: TrigPoly, k: nat): real
    decreases |t| - k
  {
    if k >= |t| then 0.0 else RowMeanFrom(t[k], k, 0) + TrigMeanFrom(t, k + 1)
  }

  /** The average of `t` over one period of the angle. */
  function TrigMean(t: TrigPoly): real
  {
    TrigMeanFrom(t, 0)
  }

  lemma RowMeanAdd(p: Poly, q: Poly, a: nat, b: nat)
    ensures RowMeanFrom(Add(p, q), a, b) == RowMeanFrom(p, a, b) + RowMeanFrom(q, a, b)
  {
    DotAdd(p, q, MeanOf(a), b);
  }

  /** Multiplying by `1 - c^2` under the average. */
  lemma TimesPythMean(p: Poly, a: nat, b: nat, m0: real, m2: real)
    requires RowMeanFrom(p, a, b) == m0 && RowMeanFrom(p, a, b + 2) == m2
    ensures RowMeanFrom(TimesPyth(p), a, b) == m0 - m2
  {
    var z := [0.0, 0.0] + p;
    DotAdd(p, Scale(-1.0, z), MeanOf(a), b);
    DotScale(-1.0, z, MeanOf(a), b);
    DotShift(p, MeanOf(a), b);
  }

  /** `s^2 = 1 - c^2` under the average, coefficient by coefficient. */
  lemma RowPythagorean(p: Poly, a: nat, b: nat)
    ensures RowMeanFrom(p, a + 2, b) == RowMeanFrom(p, a, b) - RowMeanFrom(p, a, b + 2)
  {
    forall i | b <= i
      ensures MeanOf(a + 2)(i) == MeanOf(a)(i) - MeanOf(a)(i + 2)
    {
      PythagoreanMean(a, i);
    }
    DotDifference(p, MeanOf(a), MeanOf(a + 2), b);
  }

  /** Multiplying a row by `(1 - c^2)^j` under the average is multiplying it
      by `s^(2j)`. */
  lemma {:induction false} TimesPythPowMean(p: Poly, j: nat, a: nat, b: nat)
    ensures RowMeanFrom(TimesPythPow(p, j), a, b) == RowMeanFrom(p, a + 2 * j, b)
    decreases j
  {
    if j > 0 {
      var i := a + 2 * (j - 1);
      TimesPythPowMean(TimesPyth(p), j - 1, a, b);
      TimesPythMean(p, i, b, RowMeanFrom(p, i, b), RowMeanFrom(p, i, b + 2));
      RowPythagorean(p, i, b);
    }
  }

  /** The average of `(1 - c^2)^j * s^a * c^b` is that of `s^(a+2j) * c^b`. */
  lemma PythMean(j: nat, a: nat, b: nat)
    ensures RowMeanFrom(Pyth(j), a, b) == Mean(a + 2 * j, b)
  {
    TimesPythPowMean([1.0], j, a, b);
    assert [1.0] == [1.0] + [];
    DotCons(1.0, [], MeanOf(a + 2 * j), b);
  }

  /** An odd power of the sine averages to zero, whatever it multiplies. */
  lemma RowMeanOdd(p: Poly, a: nat, b: nat)
    requires a % 2 == 1
    ensures RowMeanFrom(p, a, b) == 0.0
  {
    forall i: nat | b <= i
      ensures MeanOf(a)(i) == 0.0
    {
      OddMean(a, i);
    }
    DotZero(p, MeanOf(a), b);
  }

  /** The contribution of row `k >= 1` to the average before and after the
      rewrite of even sine powers. */
  lemma RowMeanStep(t: TrigPoly, r: TrigPoly, m: nat, k: nat)
    requires 1 <= k < |t| && KeptRows(t, r, m)
    ensures RowMeanFrom(RowImage(t, m, k), 0, 0) + RowMeanFrom(r[k], k, 0) == RowMeanFrom(t[k], k, 0)
  {
    if Rewritten(k, m) {
      assert r[k] == [];
      TimesPythPowMean(t[k], k / 2, 0, 0);
    } else {
      assert r[k] == t[k];
    }
  }

  lemma {:induction false} CollectedMean(t: TrigPoly, r: TrigPoly, m: nat, k: nat)
    requires 1 <= k && KeptRows(t, r, m)
    ensures RowMeanFrom(Collected(t, m, k), 0, 0) + TrigMeanFrom(r, k) == TrigMeanFrom(t, k)
    decreases |t| - k
  {
    if k < |t| {
      CollectedMean(t, r, m, k + 1);
      RowMeanAdd(RowImage(t, m, k), Collected(t, m, k + 1), 0, 0);
      RowMeanStep(t, r, m, k);
    }
  }

  /** The rewrite of even sine powers by `1 - c^2` keeps the average over a
      period. */
  lemma RewritePreservesMean(t: TrigPoly, m: nat)
    ensures TrigMean(RewriteEvenSines(t, m)) == TrigMean(t)
  {
    if t != [] {
      var r := RewriteEvenSines(t, m);
      CollectedMean(t, r, m, 1);
      RowMeanAdd(t[0], Collected(t, m, 1), 0, 0);
    }
  }

  /** The first pass as intended: each whole power `s^a` with an odd `a` in
      `1..m` is replaced by 0 (rt1/rt1.py:133-134). */
  function ZeroOddSines(t: TrigPoly, m: nat): TrigPoly
  {
    seq(|t|, a requires 0 <= a < |t| => if a % 2 == 1 && a <= m then [] else t[a])
  }

  /** Under the table of the first pass, `s^a` becomes 0 as written: either the
      whole power is a key, or `xreplace` descends into the power and meets its
      base `s`, which is the key `s^1`. */
  predicate SineZeroedAsWritten(a: nat, m: nat)
  {
    (a % 2 == 1 && a <= m) || (1 <= a && 1 <= m)
  }

  /** The first pass as written. */
  function ZeroSinesAsWritten(t: TrigPoly, m: nat): TrigPoly
  {
    seq(|t|, a requires 0 <= a < |t| => if SineZeroedAsWritten(a, m) then [] else t[a])
  }

  lemma {:induction false} ZeroOddSinesMeanFrom(t: TrigPoly, m: nat, k: nat)
    ensures TrigMeanFrom(ZeroOddSines(t, m), k) == TrigMeanFrom(t, k)
    decreases |t| - k
  {
    if k < |t| {
      ZeroOddSinesMeanFrom(t, m, k + 1);
      if k % 2 == 1 {
        RowMeanOdd(t[k], k, 0);
      }
    }
  }

  /** The first pass as intended keeps the average: an odd sine power
      averages to zero. */
  lemma ZeroOddSinesMean(t: TrigPoly, m: nat)
    ensures TrigMean(ZeroOddSines(t, m)) == TrigMean(t)
  {
    ZeroOddSinesMeanFrom(t, m, 0);
  }

  /** The first pass as written loses the average of `sin^2`: 1/2 becomes 0. */
  lemma ZeroSinesAsWrittenLosesMean(m: nat)
    requires m >= 1
    ensures TrigMean([[], [], [1.0]]) == 0.5
    ensures TrigMean(ZeroSinesAsWritten([[], [], [1.0]], m)) == 0.0
  {
    var t: TrigPoly := [[], [], [1.0]];
    var z := ZeroSinesAsWritten(t, m);
    assert z == [[], [], []];
    assert Mean(2, 0) == 0.5;
    assert [1.0][1..] == [];
    assert TrigMeanFrom(t, 2) == 0.5;
    assert TrigMeanFrom(t, 1) == 0.5;
    assert TrigMeanFrom(z, 2) == 0.0;
    assert TrigMeanFrom(z, 1) == 0.0;
  }

  /** The table of the third pass: `c^k` to `_cosintegral(k)` for `k` in
      `1..m` (rt1/rt1.py:141). */
  function CosTable(m: nat, pi: real, sqrtPi: real): Table
    requires IsPi(pi, sqrtPi)
  {
    map k | k in Powers(1, m) :: CosIntegral(k, pi, sqrtPi)
  }

  /** Above the table's range the base `c` is replaced by `_cosintegral(1) == 0`,
      so such a power disappears. */
  lemma CosTableBeyond(m: nat, k: nat, pi: real, sqrtPi: real)
    requires IsPi(pi, sqrtPi) && 1 <= m < k
    ensures Image(CosTable(m, pi, sqrtPi), k) == 0.0
  {
    var t := CosTable(m, pi, sqrtPi);
    assert t[1] == 0.0;
    assert Pow(0.0, k) == 0.0;
  }

  /** Within the table's range, `c^k` becomes the average of `c^k`. */
  lemma ApplyCosFrom(p: Poly, m: nat, k: nat, pi: real, sqrtPi: real)
    requires IsPi(pi, sqrtPi) && 1 <= m && k + |p| <= m + 1
    ensures ApplyFrom(p, CosTable(m, pi, sqrtPi), k) == RowMeanFrom(p, 0, k)
  {
    var t := CosTable(m, pi, sqrtPi);
    forall i | k <= i < k + |p|
      ensures ImageOf(t)(i) == MeanOf(0)(i)
    {
      if i >= 1 {
        CosIntegralIsMean(i, pi, sqrtPi);
      }
    }
    DotSame(p, ImageOf(t), MeanOf(0), k);
  }

  /** The third pass turns a cosine polynomial of degree at most `m` into its
      average. */
  lemma XReplaceCos(p: Poly, m: nat, pi: real, sqrtPi: real)
    requires IsPi(pi, sqrtPi) && 1 <= m && |p| <= m + 1
    ensures XReplace(p, CosTable(m, pi, sqrtPi)) == RowMeanFrom(p, 0, 0)
  {
    ApplyCosFrom(p, m, 0, pi, sqrtPi);
  }

  /** The third pass on a row: the cosine powers of `s^a * p(c)` are replaced,
      `s^a` stays. */
  function IntegrateCosines(t: TrigPoly, m: nat, pi: real, sqrtPi: real): TrigPoly
    requires IsPi(pi, sqrtPi) && 1 <= m
  {
    seq(|t|, a requires 0 <= a < |t| => if t[a] == [] then [] else [XReplace(t[a], CosTable(m, pi, sqrtPi))])
  }

  /** `_integrate_0_2pi_phis` for a polynomial in `sin(phi_s)`, `cos(phi_s)`;
      `n` is `SRF.ncoefs + RV.ncoefs`, so the tables run up to `n + 4`. */
  function IntegratePhis(t: TrigPoly, n: nat, pi: real, sqrtPi: real): TrigPoly
    requires IsPi(pi, sqrtPi)
  {
    var m := n + 4;
    IntegrateCosines(RewriteEvenSines(ZeroOddSines(t, m), m), m, pi, sqrtPi)
  }

  /** The same with the first pass as written. */
  function IntegratePhisAsWritten(t: TrigPoly, n: nat, pi: real, sqrtPi: real): TrigPoly
    requires IsPi(pi, sqrtPi)
  {
    var m := n + 4;
    IntegrateCosines(RewriteEvenSines(ZeroSinesAsWritten(t, m), m), m, pi, sqrtPi)
  }

  /** After the first pass (as intended) on a polynomial of total degree at
      most `m`, no odd sine power and no sine power above `m` is left. */
  lemma ZeroOddSinesShape(t: TrigPoly, m: nat)
    requires DegreeAtMost(t, m)
    ensures DegreeAtMost(ZeroOddSines(t, m), m)
    ensures forall a :: 0 <= a < |t| && (a % 2 == 1 || a > m) ==> ZeroOddSines(t, m)[a] == []
  {
    var z := ZeroOddSines(t, m);
    forall a | 0 <= a < |t| && (a % 2 == 1 || a > m)
      ensures z[a] == []
    {
      assert a + |t[a]| <= m + 1;
    }
  }

  /** A polynomial in the cosine alone averages like its row 0. */
  lemma {:induction false} CosineOnlyMean(t: TrigPoly, k: nat)
    requires CosineOnly(t) && 1 <= k
    ensures TrigMeanFrom(t, k) == 0.0
    decreases |t| - k
  {
    if k < |t| {
      CosineOnlyMean(t, k + 1);
    }
  }

  /** The third pass on a polynomial in the cosine alone leaves the constant
      that is its average. */
  lemma IntegrateCosinesMean(q: TrigPoly, m: nat, pi: real, sqrtPi: real)
    requires IsPi(pi, sqrtPi) && 1 <= m
    requires DegreeAtMost(q, m) && CosineOnly(q)
    ensures CosineOnly(IntegrateCosines(q, m, pi, sqrtPi))
    ensures forall s, c :: EvalTrig(IntegrateCosines(q, m, pi, sqrtPi), s, c) == TrigMean(q)
  {
    var r := IntegrateCosines(q, m, pi, sqrtPi);
    if q != [] {
      CosineOnlyMean(q, 1);
      assert TrigMean(q) == RowMeanFrom(q[0], 0, 0);
      assert Eval(r[0], 0.0) == RowMeanFrom(q[0], 0, 0) by {
        if q[0] != [] {
          assert 0 + |q[0]| <= m + 1;
          XReplaceCos(q[0], m, pi, sqrtPi);
          assert r[0][1..] == [];
        }
      }
      forall s, c
        ensures EvalTrig(r, s, c) == TrigMean(q)
      {
        var w := SinePowers(s, |r|);
        ZeroSineRowsWeighted(r, w, c, 1);
        assert w[0] == 1.0;
        EvalScale(w[0], r[0], c);
        assert Eval(r[0], c) == Eval(r[0], 0.0) by {
          if r[0] != [] {
            assert r[0][1..] == [];
          }
        }
      }
    }
  }

  /** `_integrate_0_2pi_phis`, with the first pass as intended, turns a
      polynomial of total degree at most `n + 4` into the constant that is
      its average over one period of `phi_s`. */
  lemma IntegratePhisMean(t: TrigPoly, n: nat, pi: real, sqrtPi: real)
    requires IsPi(pi, sqrtPi) && DegreeAtMost(t, n + 4)
    ensures CosineOnly(IntegratePhis(t, n, pi, sqrtPi))
    ensures forall s, c :: EvalTrig(IntegratePhis(t, n, pi, sqrtPi), s, c) == TrigMean(t)
  {
    var m := n + 4;
    var z := ZeroOddSines(t, m);
    ZeroOddSinesShape(t, m);
    ZeroOddSinesMean(t, m);
    RewriteDegree(z, m);
    RewriteLeavesCosine(z, m);
    RewritePreservesMean(z, m);
    IntegrateCosinesMean(RewriteEvenSines(z, m), m, pi, sqrtPi);
  }

  /** With the first pass as written, only the part free of `sin(phi_s)` is
      averaged: the result is the average of row 0 alone. */
  lemma IntegratePhisAsWrittenMean(t: TrigPoly, n: nat, pi: real, sqrtPi: real)
    requires IsPi(pi, sqrtPi) && DegreeAtMost(t, n + 4) && t != []
    ensures forall s, c :: EvalTrig(IntegratePhisAsWritten(t, n, pi, sqrtPi), s, c) == RowMeanFrom(t[0], 0, 0)
  {
    var m := n + 4;
    var z := ZeroSinesAsWritten(t, m);
    assert CosineOnly(z);
    assert DegreeAtMost(z, m) by {
      assert 0 + |t[0]| <= m + 1;
    }
    CosineOnlyMean(z, 1);
    RewriteDegree(z, m);
    RewriteLeavesCosine(z, m);
    RewritePreservesMean(z, m);
    IntegrateCosinesMean(RewriteEvenSines(z, m), m, pi, sqrtPi);
  }

  /** The as-written pipeline gives 0 for `sin^2(phi_s)`, whose average is 1/2. */
  lemma IntegratePhisAsWrittenLosesSquare(n: nat, pi: real, sqrtPi: real, s: real, c: real)
    requires IsPi(pi, sqrtPi)
    ensures EvalTrig(IntegratePhisAsWritten([[], [], [1.0]], n, pi, sqrtPi), s, c) == 0.0
    ensures EvalTrig(IntegratePhis([[], [], [1.0]], n, pi, sqrtPi), s, c) == 0.5
  {
    var t: TrigPoly := [[], [], [1.0]];
    assert DegreeAtMost(t, n + 4);
    IntegratePhisAsWrittenMean(t, n, pi, sqrtPi);
    IntegratePhisMean(t, n, pi, sqrtPi);
    ZeroSinesAsWrittenLosesMean(n + 4);
  }

  /** A polynomial in the cosine alone, taken at the origin, is the constant
      term of its row 0. */
  lemma ValueAtOrigin(r: TrigPoly)
    requires CosineOnly(r)
    ensures EvalTrig(r, 0.0, 0.0) == if r == [] then 0.0 else Coef(r[0], 0)
  {
    if r != [] {
      var w := SinePowers(0.0, |r|);
      ZeroSineRowsWeighted(r, w, 0.0, 1);
      assert w[0] == 1.0;
      EvalScale(w[0], r[0], 0.0);
    }
  }

  /** The number `_integrate_0_2pi_phis` leaves for a polynomial of total
      degree at most `n + 4`: its average over one period of `phi_s`. */
  function PhiAverage(t: TrigPoly, n: nat, pi: real, sqrtPi: real): (v: real)
    requires IsPi(pi, sqrtPi) && DegreeAtMost(t, n + 4)
    ensures v == TrigMean(t)
  {
    var r := IntegratePhis(t, n, pi, sqrtPi);
    IntegratePhisMean(t, n, pi, sqrtPi);
    ValueAtOrigin(r);
    if r == [] then 0.0 else Coef(r[0], 0)
  }
}
