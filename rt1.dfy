/** Class `RT1` (rt1/rt1.py:20-186): the interaction expansion, its
    coefficients `fn` in powers of `cos(theta_s)`, and the combination of the
    surface, volume and interaction contributions in `calc`.

    `surface()` and `volume()` evaluate exponentials and the phase functions
    of modules that are not part of this model; their values, and those of
    `exp(-tau / mu)`, enter as arguments. */
module Rt1 {
  import opened Polynomials
  import opened Substitution
  import opened Trig
  import opened Azimuth

  datatype Option<T> = None | Some(value: T)

  /** What `RT1` reads of the random volume: optical depth, single scattering
      albedo and the number of Legendre coefficients of its phase function. */
  datatype Volume = Volume(tau: real, omega: real, ncoefs: nat)

  /** What `RT1` reads of the surface: the number of Legendre coefficients of
      its BRDF. */
  datatype Surface = Surface(ncoefs: nat)

  /** The expanded product `2 pi * volexp * brdfexp` (rt1/rt1.py:98): `e[a][b]`
      is the polynomial in `sin(phi_s)`, `cos(phi_s)` that multiplies
      `sin(theta_s)^a * cos(theta_s)^b`. */
  type Expansion = seq<seq<TrigPoly>>

  /** Every azimuth polynomial of `e` has total degree at most `m`. */
  ghost predicate PhiDegreeAtMost(e: Expansion, m: nat)
  {
    forall a, b :: 0 <= a < |e| && 0 <= b < |e[a]| ==> DegreeAtMost(e[a][b], m)
  }

  /** Every monomial `sin(theta_s)^a * cos(theta_s)^b` of `e` has `a + b <= n`. */
  ghost predicate ThetaDegreeAtMost(e: Expansion, n: nat)
  {
    forall a :: 0 <= a < |e| ==> a + |e[a]| <= n + 1
  }

  /** Every azimuth polynomial that multiplies an odd power of
      `sin(theta_s)` averages to 0 over `phi_s`, as the factors
      `cos(phi_s - phi)` of the scattering-angle cosine make it do. */
  ghost predicate OddThetaSinesAverageOut(e: Expansion)
  {
    forall a, b :: 0 <= a < |e| && a % 2 == 1 && 0 <= b < |e[a]| ==> TrigMean(e[a][b]) == 0.0
  }

  /** The term `sin(theta_s) * sin(phi_s)` of a linear phase function is an
      odd row that averages out. */
  lemma LinearTermAveragesOut()
    ensures OddThetaSinesAverageOut([[[[1.0]]], [[[], [1.0]]]])
  {
    var e: Expansion := [[[[1.0]]], [[[], [1.0]]]];
    RowMeanOdd([1.0], 1, 0);
    assert TrigMean(e[1][0]) == 0.0 by {
      assert TrigMeanFrom([[], [1.0]], 2) == 0.0;
      assert TrigMean([[], [1.0]]) == RowMeanFrom([], 0, 0) + RowMeanFrom([1.0], 1, 0);
    }
  }

  /** `_integrate_0_2pi_phis` applied to `e`: each azimuth polynomial becomes
      its average over one period, and what is left is a polynomial in
      `sin(theta_s)`, `cos(theta_s)`. */
  function AveragePhis(e: Expansion, n: nat, pi: real, sqrtPi: real): (r: TrigPoly)
    requires IsPi(pi, sqrtPi) && PhiDegreeAtMost(e, n + 4)
    ensures |r| == |e|
    ensures forall a :: 0 <= a < |e| ==> |r[a]| == |e[a]|
    ensures forall a, b :: 0 <= a < |e| && 0 <= b < |e[a]| ==> r[a][b] == TrigMean(e[a][b])
  {
    seq(|e|, a requires 0 <= a < |e| =>
      seq(|e[a]|, b requires 0 <= b < |e[a]| => PhiAverage(e[a][b], n, pi, sqrtPi)))
  }

  /** `_calc_interaction_expansion` from the expanded product on: average
      over `phi_s`, then rewrite the even powers `2..n` of `sin(theta_s)` by
      `1 - cos(theta_s)^2` (rt1/rt1.py:101-106). */
  function InteractionExpansion(e: Expansion, n: nat, pi: real, sqrtPi: real): TrigPoly
    requires IsPi(pi, sqrtPi) && PhiDegreeAtMost(e, n + 4)
  {
    RewriteEvenSines(AveragePhis(e, n, pi, sqrtPi), n)
  }

  /** The rewrite in `theta_s` does not change the averaged expression at any
      point of the unit circle. */
  lemma InteractionExpansionValue(e: Expansion, n: nat, pi: real, sqrtPi: real, s: real, c: real)
    requires IsPi(pi, sqrtPi) && PhiDegreeAtMost(e, n + 4)
    requires s * s + c * c == 1.0
    ensures EvalTrig(InteractionExpansion(e, n, pi, sqrtPi), s, c) == EvalTrig(AveragePhis(e, n, pi, sqrtPi), s, c)
  {
    RewritePreservesValue(AveragePhis(e, n, pi, sqrtPi), n, s, c);
  }

  /** When the odd powers of `sin(theta_s)` average out and the total
      degree is at most `n`, every coefficient left beside a power of
      `sin(theta_s)` in the interaction expansion is 0, and its cosine
      polynomial has degree at most `n`. */
  lemma InteractionExpansionShape(e: Expansion, n: nat, pi: real, sqrtPi: real)
    requires IsPi(pi, sqrtPi) && PhiDegreeAtMost(e, n + 4)
    requires ThetaDegreeAtMost(e, n) && OddThetaSinesAverageOut(e)
    ensures ZeroSineRows(InteractionExpansion(e, n, pi, sqrtPi))
    ensures |Row0(InteractionExpansion(e, n, pi, sqrtPi))| <= n + 1
  {
    var t := AveragePhis(e, n, pi, sqrtPi);
    var r := InteractionExpansion(e, n, pi, sqrtPi);
    assert DegreeAtMost(t, n);
    RewriteDegree(t, n);
    forall a, b | 1 <= a < |r| && 0 <= b < |r[a]|
      ensures r[a][b] == 0.0
    {
      assert !Rewritten(a, n) && r[a] == t[a];
    }
    if t != [] {
      assert 0 + |r[0]| <= n + 1;
    }
  }

  /** The cosine polynomial of row 0: what `_extract_coefficients` reads. */
  function Row0(t: TrigPoly): Poly
  {
    if t == [] then [] else t[0]
  }

  /** The intended coefficient list of `p` for the degree bound `n`: entry `k`
      is the coefficient of `c^k`, except that entry 1 also collects every
      coefficient above the bound (under the tables of rt1/rt1.py:71-72
      a power above `n` is not a key, `xreplace` replaces its base `c` by 1). */
  function Coefficients(p: Poly, n: nat): seq<real>
  {
    seq(n + 1, k requires 0 <= k <= n =>
      if k == 0 then Coef(p, 0) else Coef(p, k) + (if k == 1 then TailSum(p, n) else 0.0))
  }

  /** For a polynomial of degree at most `n`, the coefficient list is the
      polynomial itself, padded to `n + 1` coefficients: `sum fn[k] c^k`
      rebuilds the input. */
  lemma CoefficientsRebuild(p: Poly, n: nat, c: real)
    requires |p| <= n + 1
    ensures |Coefficients(p, n)| == n + 1
    ensures Coefficients(p, n) == Padded(p, n + 1)
    ensures Eval(Coefficients(p, n), c) == Eval(p, c)
  {
    TailFromZero(p, 0, n);
    EvalPadded(p, n + 1, c);
  }

  /** The coefficients of the interaction expansion give back the averaged
      expression at every point `(sin(theta_s), cos(theta_s))` of the unit
      circle. */
  lemma CoefficientsOfInteraction(e: Expansion, n: nat, pi: real, sqrtPi: real, s: real, c: real)
    requires IsPi(pi, sqrtPi) && PhiDegreeAtMost(e, n + 4)
    requires ThetaDegreeAtMost(e, n) && OddThetaSinesAverageOut(e)
    requires s * s + c * c == 1.0
    ensures Eval(Coefficients(Row0(InteractionExpansion(e, n, pi, sqrtPi)), n), c)
      == EvalTrig(AveragePhis(e, n, pi, sqrtPi), s, c)
  {
    var t := InteractionExpansion(e, n, pi, sqrtPi);
    InteractionExpansionShape(e, n, pi, sqrtPi);
    InteractionExpansionValue(e, n, pi, sqrtPi, s, c);
    CoefficientsRebuild(Row0(t), n, c);
    if t != [] {
      ZeroSineRowsValue(t, s, c);
    }
  }

  class RT1 {
    var I0: real
    var mu_0: real
    var mu_ex: real
    var phi_0: real
    var phi_ex: real
    var RV: Volume
    var SRF: Surface
    var fn: seq<real>

    /** `SRF.ncoefs + RV.ncoefs`, the degree bound of the expansion. */
    function N(): nat
      reads this
    {
      SRF.ncoefs + RV.ncoefs
    }

    /** `__init__`: a volume and a surface must be given; the coefficients of
        the interaction expansion are computed once. `e` is the expanded
        product of the two Legendre expansions. */
    constructor (I0: real, mu_0: real, mu_ex: real, phi_0: real, phi_ex: real,
                 RV: Option<Volume>, SRF: Option<Surface>, e: Expansion, pi: real, sqrtPi: real)
      requires RV.Some? && SRF.Some?
      requires IsPi(pi, sqrtPi) && PhiDegreeAtMost(e, SRF.value.ncoefs + RV.value.ncoefs + 4)
      ensures this.I0 == I0 && this.mu_0 == mu_0 && this.mu_ex == mu_ex
      ensures this.phi_0 == phi_0 && this.phi_ex == phi_ex
      ensures this.RV == RV.value && this.SRF == SRF.value
      ensures fn == Coefficients(Row0(InteractionExpansion(e, N(), pi, sqrtPi)), N())
    {
      this.I0 := I0;
      this.mu_0 := mu_0;
      this.mu_ex := mu_ex;
      this.phi_0 := phi_0;
      this.phi_ex := phi_ex;
      this.RV := RV.value;
      this.SRF := SRF.value;
      new;
      var exprInt := InteractionExpansion(e, N(), pi, sqrtPi);
      fn := ExtractCoefficients(Row0(exprInt));
    }

    /** `_extract_coefficients`: `fn[0]` is `expr` with `c -> 0`; for each `nn`
        in `1..N`, `fn[nn]` is `expr` under the table that sends `c^nn` to 1
        and every other `c^i`, `1 <= i <= N`, to 0, minus `fn[0]`. */
    method ExtractCoefficients(expr: Poly) returns (fn: seq<real>)
      ensures fn == Coefficients(expr, N())
    {
      var n := SRF.ncoefs + RV.ncoefs;
      XReplaceNull(expr);
      fn := [XReplace(expr, NullTable)];
      for nn := 1 to n + 1
        invariant fn == Coefficients(expr, n)[..nn]
      {
        XReplacePower(expr, nn, n);
        fn := fn + [XReplace(expr, PowerTable(nn, n)) - fn[0]];
      }
    }

    /** `_calc_Fint`, a placeholder that gives 0 for any arguments. */
    function CalcFint(mu1: real, mu2: real): real
    {
      0.0
    }

    /** `interaction()`, with `expEx == exp(-tau / mu_ex)` and
        `exp0 == exp(-tau / mu_0)`: both Fint terms vanish, so the interaction
        contribution is 0. */
    function Interaction(expEx: real, exp0: real): (r: real)
      reads this
      ensures r == 0.0
    {
      I0 * mu_0 * RV.omega * (expEx * CalcFint(mu_0, mu_ex) + exp0 * CalcFint(mu_ex, mu_0))
    }

    /** `calc()`, with `isurf == surface()`, `ivol == volume()` and the two
        exponentials of `interaction()`: the total is the sum of the three
        contributions, and without a canopy (`tau <= 0`) the volume and
        interaction contributions are 0, so the total is the surface
        contribution. */
    function Calc(isurf: real, ivol: real, expEx: real, exp0: real): (r: (real, real, real, real))
      reads this
      ensures r.0 == r.1 + r.2 + r.3
      ensures r.1 == isurf && r.3 == 0.0
      ensures r.2 == if RV.tau > 0.0 then ivol else 0.0
      ensures RV.tau <= 0.0 ==> r.0 == isurf
    {
      var (ivol', iint) := if RV.tau > 0.0 then (ivol, Interaction(expEx, exp0)) else (0.0, 0.0);
      (isurf + ivol' + iint, isurf, ivol', iint)
    }

    /** The two Fint terms of `interaction()` are equal, as the test of the
        interaction term asserts. */
    lemma FintSymmetric(mu1: real, mu2: real)
      ensures CalcFint(mu1, mu2) == CalcFint(mu2, mu1)
    {
    }
  }
}
