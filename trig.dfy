/** Polynomials in the sine `s` and cosine `c` of one angle, and the rewrite
    of even sine powers by the Pythagorean identity `s^2 = 1 - c^2`
    (rt1/rt1.py:136-138 for `phi_s`, rt1/rt1.py:103-106 for `theta_s`). */
module Trig {
  import opened Polynomials
  import opened Reals

  /** `t[a][b]` is the coefficient of `s^a * c^b`; row `t[a]` is the cosine
      polynomial that multiplies `s^a`, and an empty row is zero. */
  type TrigPoly = seq<Poly>

  /** The rows `k..` of `t`, row `a` weighted by `w[a]` and its cosine
      polynomial taken at `c`. */
  function Weighted(t: TrigPoly, w: seq<real>, c: real, k: nat): real
    requires |t| <= |w|
    decreases |t| - k
  {
    if k >= |t| then 0.0 else Eval(Scale(w[k], t[k]), c) + Weighted(t, w, c, k + 1)
  }

  /** `[1, s, s^2, ..., s^(n-1)]`. */
  function SinePowers(s: real, n: nat): (w: seq<real>)
    ensures |w| == n
  {
    seq(n, a requires 0 <= a < n => Pow(s, a))
  }

  /** The value of `t` at the point `(s, c)`. */
  function EvalTrig(t: TrigPoly, s: real, c: real): real
  {
    Weighted(t, SinePowers(s, |t|), c, 0)
  }

  /** Every monomial `s^a * c^b` of `t` has `a + b <= m`. */
  ghost predicate DegreeAtMost(t: TrigPoly, m: nat)
  {
    forall a :: 0 <= a < |t| ==> a + |t[a]| <= m + 1
  }

  /** No sine power is left: `t` is a polynomial in the cosine alone. */
  ghost predicate CosineOnly(t: TrigPoly)
  {
    forall a :: 1 <= a < |t| ==> t[a] == []
  }

  /** Every coefficient of every sine row is 0: as a value, `t` is a
      polynomial in the cosine alone. */
  ghost predicate ZeroSineRows(t: TrigPoly)
  {
    forall a, b :: 1 <= a < |t| && 0 <= b < |t[a]| ==> t[a][b] == 0.0
  }

  /** `p * (1 - c^2)`, expanded: `p - c^2 p`. */
  function TimesPyth(p: Poly): (r: Poly)
    ensures |r| == |p| + 2
  {
    Add(p, Scale(-1.0, [0.0, 0.0] + p))
  }

  /** `p * (1 - c^2)^j`, expanded. */
  function TimesPythPow(p: Poly, j: nat): (r: Poly)
    ensures |r| == |p| + 2 * j
    decreases j
  {
    if j == 0 then p else TimesPythPow(TimesPyth(p), j - 1)
  }

  /** `(1 - c^2)^j`, expanded: the value the rewrite table gives `s^(2j)`. */
  function Pyth(j: nat): (r: Poly)
    ensures |r| == 2 * j + 1
  {
    TimesPythPow([1.0], j)
  }

  /** `s^a` is one of the keys of the rewrite table for the bound `m`:
      the even powers `2..m`. */
  predicate Rewritten(a: nat, m: nat)
  {
    a % 2 == 0 && 2 <= a <= m
  }

  /** The rows `k..` that are rewritten, each turned into the cosine
      polynomial `t[a] * (1 - c^2)^(a/2)`, summed. */
  function Collected(t: TrigPoly, m: nat, k: nat): (r: Poly)
    decreases |t| - k
  {
    if k >= |t| then []
    else Add(RowImage(t, m, k), Collected(t, m, k + 1))
  }

  /** `xreplace` with the table `s^a -> expand((1 - c^2)^(a/2))` for the even
      `a` in `2..m`, followed by `expand()`: every rewritten row moves into the
      cosine polynomial of row 0; all other rows are kept. */
  function RewriteEvenSines(t: TrigPoly, m: nat): (r: TrigPoly)
    ensures |r| == |t|
    ensures forall a :: 1 <= a < |t| && Rewritten(a, m) ==> r[a] == []
    ensures forall a :: 1 <= a < |t| && !Rewritten(a, m) ==> r[a] == t[a]
  {
    if t == [] then []
    else
      [Add(t[0], Collected(t, m, 1))]
      + seq(|t| - 1, i requires 0 <= i < |t| - 1 => if Rewritten(i + 1, m) then [] else t[i + 1])
  }

  /** One factor `x == 1 - c^2` more: `p - c^2 p == x p`. */
  lemma FactorStep(p: Poly, c: real, x: real, e: real)
    requires x + c * c == 1.0 && Eval(p, c) == e
    ensures Eval(TimesPyth(p), c) == x * e
  {
    var z := [0.0, 0.0] + p;
    var ez := Eval(z, c);
    assert ez == c * (c * e) by {
      assert z == [0.0] + ([0.0] + p);
      EvalShift(p, c);
      EvalShift([0.0] + p, c);
    }
    var es := Eval(Scale(-1.0, z), c);
    assert es == (-1.0) * ez by {
      EvalScale(-1.0, z, c);
    }
    var v := Eval(Add(p, Scale(-1.0, z)), c);
    assert v == e + es by {
      EvalAdd(p, Scale(-1.0, z), c);
    }
    Factor(v, e, es, ez, c, x);
  }

  /** Each factor `1 - c^2` contributes `x` when `x == 1 - c^2`. */
  lemma {:induction false} EvalTimesPythPow(p: Poly, j: nat, c: real, x: real, e: real)
    requires x + c * c == 1.0 && Eval(p, c) == e
    ensures Eval(TimesPythPow(p, j), c) == Pow(x, j) * e
  {
    EvalTimesPythPowTimes(p, j, c, x, e);
    PowTimesIsProduct(x, j, e);
  }

  lemma {:induction false} EvalTimesPythPowTimes(p: Poly, j: nat, c: real, x: real, e: real)
    requires x + c * c == 1.0 && Eval(p, c) == e
    ensures Eval(TimesPythPow(p, j), c) == PowTimes(x, j, e)
    decreases j
  {
    if j > 0 {
      FactorStep(p, c, x, e);
      EvalTimesPythPowTimes(TimesPyth(p), j - 1, c, x, x * e);
    }
  }

  /** The expanded `(1 - c^2)^j` has the value `x^j` when `x == 1 - c^2`. */
  lemma EvalPyth(j: nat, c: real, x: real)
    requires x + c * c == 1.0
    ensures Eval(Pyth(j), c) == Pow(x, j)
  {
    EvalConstant(1.0, c);
    EvalTimesPythPow([1.0], j, c, x, 1.0);
  }

  /** The rewrite multiplies a row by the table value: at every `c`,
      `TimesPythPow(p, j)` has the value of `p` times `expand((1 - c^2)^j)`. */
  lemma TimesPythPowValue(p: Poly, j: nat, c: real)
    ensures Eval(TimesPythPow(p, j), c) == Eval(p, c) * Eval(Pyth(j), c)
  {
    var x := 1.0 - c * c;
    EvalTimesPythPow(p, j, c, x, Eval(p, c));
    EvalPyth(j, c, x);
  }

  lemma {:induction false} PowSquare(s: real, j: nat)
    ensures Pow(s * s, j) == Pow(s, 2 * j)
  {
    if j > 0 {
      PowSquare(s, j - 1);
      assert Pow(s, 2 * j) == s * (s * Pow(s, 2 * j - 2));
    }
  }

  /** One rewritten row keeps its value on the unit circle. */
  lemma RewrittenRowValue(row: Poly, a: nat, s: real, c: real)
    requires a % 2 == 0
    requires s * s + c * c == 1.0
    ensures Eval(TimesPythPow(row, a / 2), c) == Pow(s, a) * Eval(row, c)
  {
    var h := a / 2;
    assert Pow(s, a) == Pow(s * s, h) by {
      PowSquare(s, h);
    }
    EvalTimesPythPow(row, h, c, s * s, Eval(row, c));
  }

  /** The rewritten form of row `k`, as a cosine polynomial (empty when
      `s^k` is not a key). */
  function RowImage(t: TrigPoly, m: nat, k: nat): Poly
    requires k < |t|
  {
    if Rewritten(k, m) then TimesPythPow(t[k], k / 2) else []
  }

  /** Under the weights `w`, every row `k..` that the rewrite moves keeps its
      value. */
  ghost predicate RowsKeepValue(t: TrigPoly, m: nat, w: seq<real>, c: real, k: nat)
    requires |t| <= |w|
    decreases |t| - k
  {
    k >= |t| ||
    ((Rewritten(k, m) ==> Eval(RowImage(t, m, k), c) == Eval(Scale(w[k], t[k]), c))
     && RowsKeepValue(t, m, w, c, k + 1))
  }

  lemma {:induction false} UnitCircleRowsKeepValue(t: TrigPoly, m: nat, s: real, c: real, k: nat)
    requires s * s + c * c == 1.0
    ensures RowsKeepValue(t, m, SinePowers(s, |t|), c, k)
    decreases |t| - k
  {
    if k < |t| {
      UnitCircleRowsKeepValue(t, m, s, c, k + 1);
      if Rewritten(k, m) {
        RewrittenRowValue(t[k], k, s, c);
        EvalScale(Pow(s, k), t[k], c);
      }
    }
  }

  /** `r` holds, in rows `k..`, what the rewrite leaves of `t` there. */
  ghost predicate KeptRows(t: TrigPoly, r: TrigPoly, m: nat)
  {
    |r| == |t| && forall a :: 1 <= a < |t| ==> r[a] == (if Rewritten(a, m) then [] else t[a])
  }

  /** The contribution of row `k >= 1` before and after the rewrite. */
  lemma RowStep(t: TrigPoly, r: TrigPoly, m: nat, w: seq<real>, k: nat, c: real)
    requires 1 <= k < |t| <= |w|
    requires KeptRows(t, r, m)
    requires Rewritten(k, m) ==> Eval(RowImage(t, m, k), c) == Eval(Scale(w[k], t[k]), c)
    ensures Eval(RowImage(t, m, k), c) + Eval(Scale(w[k], r[k]), c) == Eval(Scale(w[k], t[k]), c)
  {
    if Rewritten(k, m) {
      assert r[k] == [];
    } else {
      assert r[k] == t[k];
    }
  }

  lemma {:induction false} CollectedValue(t: TrigPoly, r: TrigPoly, m: nat, w: seq<real>, c: real, k: nat)
    requires 1 <= k && |t| <= |w|
    requires KeptRows(t, r, m)
    requires RowsKeepValue(t, m, w, c, k)
    ensures Eval(Collected(t, m, k), c) + Weighted(r, w, c, k) == Weighted(t, w, c, k)
    decreases |t| - k
  {
    if k < |t| {
      CollectedValue(t, r, m, w, c, k + 1);
      EvalAdd(RowImage(t, m, k), Collected(t, m, k + 1), c);
      RowStep(t, r, m, w, k, c);
    }
  }

  /** Rewriting even sine powers by `1 - c^2` does not change the value of
      the polynomial at any point of the unit circle. */
  lemma RewritePreservesValue(t: TrigPoly, m: nat, s: real, c: real)
    requires s * s + c * c == 1.0
    ensures EvalTrig(RewriteEvenSines(t, m), s, c) == EvalTrig(t, s, c)
  {
    if t != [] {
      var r, w := RewriteEvenSines(t, m), SinePowers(s, |t|);
      UnitCircleRowsKeepValue(t, m, s, c, 1);
      CollectedValue(t, r, m, w, c, 1);
      EvalAdd(t[0], Collected(t, m, 1), c);
      assert w[0] == 1.0;
      EvalScale(w[0], r[0], c);
      EvalScale(w[0], t[0], c);
      assert Weighted(r, w, c, 0) == Eval(r[0], c) + Weighted(r, w, c, 1);
      assert Weighted(t, w, c, 0) == Eval(t[0], c) + Weighted(t, w, c, 1);
    }
  }

  lemma {:induction false} CollectedDegree(t: TrigPoly, m: nat, k: nat)
    requires DegreeAtMost(t, m)
    ensures |Collected(t, m, k)| <= m + 1
    decreases |t| - k
  {
    if k < |t| {
      CollectedDegree(t, m, k + 1);
      assert k + |t[k]| <= m + 1;
    }
  }

  /** The rewrite keeps the total degree bound; in particular the cosine
      polynomial of row 0 has degree at most `m`. */
  lemma RewriteDegree(t: TrigPoly, m: nat)
    requires DegreeAtMost(t, m)
    ensures DegreeAtMost(RewriteEvenSines(t, m), m)
  {
    if t != [] {
      CollectedDegree(t, m, 1);
      assert 0 + |t[0]| <= m + 1;
    }
  }

  /** With no sine power above `m` and no odd sine power, the rewrite leaves
      a polynomial in the cosine alone. */
  lemma RewriteLeavesCosine(t: TrigPoly, m: nat)
    requires forall a :: 0 <= a < |t| && (a % 2 == 1 || a > m) ==> t[a] == []
    ensures CosineOnly(RewriteEvenSines(t, m))
  {
  }

  /** The sine rows add nothing to the value: every coefficient in them
      is 0. */
  lemma {:induction false} ZeroSineRowsWeighted(t: TrigPoly, w: seq<real>, c: real, k: nat)
    requires ZeroSineRows(t) && 1 <= k && |t| <= |w|
    ensures Weighted(t, w, c, k) == 0.0
    decreases |t| - k
  {
    if k < |t| {
      ZeroSineRowsWeighted(t, w, c, k + 1);
      EvalScale(w[k], t[k], c);
      EvalZeros(t[k], c);
    }
  }

  /** A polynomial whose sine rows hold only zeros takes the value of its
      cosine row. */
  lemma ZeroSineRowsValue(t: TrigPoly, s: real, c: real)
    requires ZeroSineRows(t) && t != []
    ensures EvalTrig(t, s, c) == Eval(t[0], c)
  {
    var w := SinePowers(s, |t|);
    ZeroSineRowsWeighted(t, w, c, 1);
    assert w[0] == 1.0;
    EvalScale(w[0], t[0], c);
  }
}
