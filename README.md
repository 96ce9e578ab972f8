# RT1 interaction-term setup, in Dafny

This project models the symbolic setup of the first-order interaction term in
class `RT1` of the `rt1` radiative-transfer package (`rt1/rt1.py`). The
package multiplies the Legendre expansions of a volume phase function and a
surface BRDF. It then averages that product over the azimuth `phi_s` with
three substitution passes, rewrites even powers of `sin(theta_s)` as
polynomials in `cos(theta_s)`, and reads off the coefficients `fn` of the
powers of `cos(theta_s)`. `calc` combines the surface, volume and interaction
contributions.

The model works on exact polynomial representations instead of a computer
algebra system:

- `Polynomials`: a polynomial in a cosine `c` is its coefficient list
  `seq<real>`, with the `Add` and `Scale` that `expand()` performs.
- `Substitution`: `xreplace` of cosine powers by a table, with sympy's
  behaviour. A whole node `c^k` is tried first. Otherwise the base `c` is
  replaced, and it is the key `c^1`. The tables of `_extract_coefficients`
  are built here.
- `Trig`: a polynomial in the sine `s` and cosine `c` of one angle, as rows
  `t[a]` (the cosine polynomial that multiplies `s^a`). Also the rewrite of
  even sine powers by `(1 - c^2)^(a/2)`.
- `Means`: the reference average `Mean(a, b)` of `s^a c^b` over one period,
  in the closed form `(a - 1)!! (b - 1)!! / (a + b)!!`, which is 0 when
  either power is odd. It obeys the reduction formulas of integration by
  parts and `sin^2 = 1 - cos^2`.
- `Azimuth`: `_gammafunkt`, `_cosintegral` and the three passes of
  `_integrate_0_2pi_phis`, checked against `Mean`.
- `Rt1`: the two-angle expansion, `_calc_interaction_expansion` from the
  expanded product on, and class `RT1` with its constructor,
  `_extract_coefficients` (a loop that appends to `fn`), `interaction`,
  `_calc_Fint` and `calc`.
- `Reals`: single steps of real arithmetic over products and quotients.

Symbolic coefficients that mention the fixed angles (`theta_0`, `phi_0`, ...)
are treated as opaque reals. `pi` and `sqrt(pi)` are two arguments tied by
`IsPi`: both are positive and `sqrtPi * sqrtPi == pi`. Every statement holds
for each such pair.

The main results:

- `_cosintegral(i)` is the average of `cos^i` over one period:
  `i! / (((i/2)!)^2 * 2^i)` for an even `i`, and 0 for an odd `i`. It is not
  the integral that its doc comment names. The factor `2 pi` at
  rt1/rt1.py:98 makes the difference.
- With the first pass read as its comment states, `_integrate_0_2pi_phis`
  turns an azimuth polynomial of total degree at most `N + 4` into the
  constant that is its average over `phi_s`.
- The `sin(theta_s)` rewrite keeps the value of the expression on the unit
  circle.
- `fn` rebuilds the cosine polynomial it was extracted from.

## Model

| member | source | states |
|---|---|---|
| Polynomials.Add | rt1/rt1.py:134 | `expand()` of a sum: the coefficient list is as long as the longer operand |
| Polynomials.Scale | rt1/rt1.py:138 | `expand()` of a constant times a polynomial: one coefficient per coefficient |
| Polynomials.EvalAdd | rt1/rt1.py:134 | the sum of two coefficient lists has, at every `c`, the sum of their values |
| Polynomials.EvalScale | rt1/rt1.py:138 | scaling the coefficients by `x` multiplies the value by `x` |
| Polynomials.EvalZeros | rt1/rt1.py:73 | a coefficient list of zeros has the value 0 at every `c` |
| Polynomials.EvalPadded | rt1/rt1.py:67-74 | padding a coefficient list with zeros does not change the polynomial |
| Substitution.Image | rt1/rt1.py:68 | what `xreplace` makes of `c^k`: the value of the key `c^k`, otherwise the value of the key `c^1` raised to `k`; its meaning is proved by `Substitution.XReplaceNull`, `Substitution.XReplacePower` and `Azimuth.XReplaceCos` |
| Substitution.XReplace | rt1/rt1.py:68 | `expr.xreplace(table)` on a cosine polynomial, term by term through `Substitution.Image`; its results are the subject of `Substitution.XReplaceNull`, `Substitution.XReplacePower` and `Azimuth.XReplaceCos` |
| Substitution.ZeroEntries | rt1/rt1.py:71 | the pairs `(c^i, 0.)` for `i` in `1..N`, `i != nn`; `Substitution.ZeroEntriesKeys` states their order and range |
| Substitution.PowerTableEntries | rt1/rt1.py:71-72 | the zero pairs followed by `(c^nn, 1.)`; `Substitution.PowerEntriesDistinct` states that no key repeats |
| Substitution.DictOf | rt1/rt1.py:72 | Python's `dict` of a list of pairs; `Substitution.DictOfAppend` states that a later pair overrides an earlier one |
| Substitution.PowerTable | rt1/rt1.py:71-72 | the dict built for `nn` sends `c^nn` to 1 and every other `c^i`, `1 <= i <= N`, to 0, and holds no other key |
| Substitution.PowerTableShape | rt1/rt1.py:71-72 | no power occurs twice in the list handed to `dict`, and the dict is the intended table |
| Substitution.PowerEntriesDistinct | rt1/rt1.py:71-72 | the keys of the list of pairs are pairwise distinct |
| Substitution.ZeroEntriesKeys | rt1/rt1.py:71 | the zero pairs list the powers `1..N` without `nn`, in increasing order |
| Substitution.ZeroEntriesDict | rt1/rt1.py:71 | the dict of the zero pairs maps each power `1..N` other than `nn` to 0 |
| Substitution.ZeroTableStep | rt1/rt1.py:71 | the zero table from `lo` is the one from `lo + 1` with `lo -> 0` added, unless `lo == nn` |
| Substitution.DictOfAppend | rt1/rt1.py:72 | `dict` of a concatenated list is the first dict overridden by the second |
| Substitution.Powers | rt1/rt1.py:70 | `k` is in the set exactly when `lo <= k <= n` |
| Substitution.XReplaceNull | rt1/rt1.py:63-68 | replacing `cos(theta_s)` by 0 (the table `NullTable`) leaves the constant term of the polynomial |
| Substitution.XReplacePower | rt1/rt1.py:70-73 | under the table for `nn`, what is left is the constant term plus the coefficient of `c^nn`; for `nn == 1` also the sum of the coefficients above `N` |
| Substitution.TailFromZero | rt1/rt1.py:70-73 | a polynomial of degree at most `N` has no coefficient above the bound |
| Substitution.ApplyNullFrom | rt1/rt1.py:64 | every positive cosine power vanishes under `{cos(theta_s): 0}` |
| Substitution.ApplyExtractionFrom | rt1/rt1.py:71-73 | term by term, the table for `nn` keeps the coefficient of `c^nn`, and for `nn == 1` the coefficients above `N` |
| Trig.Pyth | rt1/rt1.py:137 | `expand((1 - c^2)^j)` has `2j + 1` coefficients |
| Trig.EvalPyth | rt1/rt1.py:137 | the expanded list is, at every `c`, the value `(1 - c^2)^j` |
| Trig.TimesPythPow | rt1/rt1.py:137-138 | `expand(p * (1 - c^2)^j)` has `2j` more coefficients than `p` |
| Trig.TimesPythPowValue | rt1/rt1.py:137-138 | `TimesPythPow(p, j)` has at every `c` the value of `p` times the table value `expand((1 - c^2)^j)` |
| Trig.RowImage | rt1/rt1.py:137-138 | the cosine polynomial that the row of a key `s^a` turns into; `Trig.UnitCircleRowsKeepValue` states its value |
| Trig.Collected | rt1/rt1.py:137-138 | the rewritten rows summed into row 0; `Trig.CollectedValue` and `Trig.CollectedDegree` state its value and degree |
| Trig.TimesPyth | rt1/rt1.py:137-138 | `expand(p * (1 - c^2))` has two more coefficients than `p` |
| Trig.FactorStep | rt1/rt1.py:137-138 | the expanded `p * (1 - c^2)` has the value `x * p(c)` when `x == 1 - c^2` |
| Trig.EvalTimesPythPow | rt1/rt1.py:137-138 | the expanded `p * (1 - c^2)^j` has the value `x^j * p(c)` when `x == 1 - c^2` |
| Trig.UnitCircleRowsKeepValue | rt1/rt1.py:136-138 | on the unit circle, each rewritten row carries the value of the sine row it replaces |
| Trig.RowStep | rt1/rt1.py:136-138 | the value of row `k` is split between the cosine polynomial it adds to row 0 and what stays in row `k` |
| Trig.ZeroSineRowsWeighted | rt1/rt1.py:73 | sine rows that hold only zero coefficients add nothing to the value |
| Trig.ZeroSineRowsValue | rt1/rt1.py:73 | a polynomial whose sine rows hold only zeros takes, at every point, the value of its cosine row |
| Trig.RewrittenRowValue | rt1/rt1.py:136-138 | on the unit circle `s^a * p(c) == p(c) * (1 - c^2)^(a/2)` for an even `a` |
| Trig.RewriteEvenSines | rt1/rt1.py:136-138 | the rewrite keeps the number of rows, empties every row `s^a` with `a` even in `2..m`, and keeps every other row from 1 up |
| Trig.RewritePreservesValue | rt1/rt1.py:136-138 | the rewrite does not change the value at any point `(s, c)` with `s^2 + c^2 == 1` |
| Trig.CollectedValue | rt1/rt1.py:136-138 | the rows moved into row 0 carry the value that they had as sine rows |
| Trig.RewriteDegree | rt1/rt1.py:137-138 | the rewrite keeps a bound on the total degree |
| Trig.CollectedDegree | rt1/rt1.py:137-138 | the cosine polynomial gathered into row 0 has degree at most `m` |
| Trig.RewriteLeavesCosine | rt1/rt1.py:136-138 | when no odd sine power and no power above `m` is present, no sine power is left |
| Azimuth.Fact | rt1/rt1.py:112 | `n!` is at least 1 |
| Means.CosineReduction | rt1/rt1.py:119-120 | the average of `s^a c^(b+2)` is `(b + 1)/(a + b + 2)` times that of `s^a c^b` |
| Means.SineReduction | rt1/rt1.py:136-137 | the average of `s^(a+2) c^b` is `(a + 1)/(a + b + 2)` times that of `s^a c^b` |
| Means.PythagoreanMean | rt1/rt1.py:136-137 | under the average, `s^(a+2) c^b` equals `s^a c^b - s^a c^(b+2)` |
| Means.OddVanishes | rt1/rt1.py:132-134 | the product `(n - 1)(n - 3) ...` of an odd `n` reaches the factor 0 |
| Means.OddMean | rt1/rt1.py:132-134 | a monomial with an odd sine or cosine power averages to 0 |
| Azimuth.GammaFunkt | rt1/rt1.py:111-112 | `_gammafunkt(x) == (x/2)! (-4)^(x/2) / x! * sqrt(pi)` for an even `x`; `Azimuth.GammaNonzero` states it is never 0 |
| Azimuth.CosIntegral | rt1/rt1.py:115-123 | `_cosintegral(i)` with both branches; `Azimuth.CosIntegralIsMean` states that it is the average of `cos^i` |
| Azimuth.FourPowers | rt1/rt1.py:112 | the square of `(-4)^(x/2)` is the square of `2^x` for an even `x` |
| Azimuth.GammaNonzero | rt1/rt1.py:111-112 | `_gammafunkt(x)` is never 0 for an even `x`, so the quotient in `_cosintegral` is defined |
| Azimuth.CosMean | rt1/rt1.py:115-120 | the closed form `i! / (((i/2)!)^2 * 2^i)` is strictly positive |
| Azimuth.CosIntegralClosedForm | rt1/rt1.py:115-123 | `pi` cancels in `_cosintegral(i)`: the closed form for an even `i` and 0 for an odd `i` |
| Azimuth.CosMeanReduction | rt1/rt1.py:119-120 | the closed form for `i` is `(i - 1)/i` times that for `i - 2` |
| Azimuth.CosMeanIsMean | rt1/rt1.py:115-120 | the closed form is the average of `cos^i` over one period |
| Azimuth.CosIntegralIsMean | rt1/rt1.py:115-123 | `_cosintegral(i)` is the average of `cos^i` over one period, for every `i` |
| Azimuth.CosIntegralValues | rt1/rt1.py:119-120 | `_cosintegral(2) == 1/2` and `_cosintegral(4) == 3/8` |
| Azimuth.RowMeanAdd | rt1/rt1.py:138 | the average is additive over the sum of two rows |
| Azimuth.TimesPythMean | rt1/rt1.py:137-138 | under the average, multiplying a row by `1 - c^2` takes the difference of its averages at `c^b` and `c^(b+2)` |
| Azimuth.RowPythagorean | rt1/rt1.py:136-137 | under the average, a row times `s^(a+2)` is the row times `s^a` minus the row times `s^a c^2` |
| Azimuth.TimesPythPowMean | rt1/rt1.py:137-138 | under the average, multiplying a row by `expand((1 - c^2)^j)` is multiplying it by `s^(2j)` |
| Azimuth.PythMean | rt1/rt1.py:137 | the average of `(1 - c^2)^j s^a c^b` is that of `s^(a+2j) c^b` |
| Azimuth.RowMeanOdd | rt1/rt1.py:132-134 | a row carrying an odd sine power averages to 0 |
| Azimuth.RowMeanStep | rt1/rt1.py:136-138 | the average of one row is the same before and after the rewrite |
| Azimuth.CollectedMean | rt1/rt1.py:136-138 | the rows moved into row 0 carry the average that they had as sine rows |
| Azimuth.RewritePreservesMean | rt1/rt1.py:136-138 | the second pass keeps the average over one period |
| Azimuth.ZeroOddSines | rt1/rt1.py:132-134 | the first pass as its comment states; `Azimuth.ZeroOddSinesMean` and `Azimuth.ZeroOddSinesShape` state what it keeps |
| Azimuth.ZeroSinesAsWritten | rt1/rt1.py:133-134 | the first pass as written, where every power of `sin(phi_s)` becomes 0; `Azimuth.ZeroSinesAsWrittenLosesMean` states the loss |
| Azimuth.ZeroOddSinesMean | rt1/rt1.py:132-134 | replacing each whole odd sine power by 0 keeps the average |
| Azimuth.ZeroOddSinesMeanFrom | rt1/rt1.py:132-134 | the same, for the rows from `k` on |
| Azimuth.ZeroOddSinesShape | rt1/rt1.py:132-134 | after the first pass no odd sine power is left, and neither is any power above the degree bound |
| Azimuth.ZeroSinesAsWrittenLosesMean | rt1/rt1.py:133-134 | the first pass as written turns `sin^2(phi_s)`, average 1/2, into 0 |
| Azimuth.CosTable | rt1/rt1.py:141 | the third table, `c^k -> _cosintegral(k)` for `k` in `1..N+4`; `Azimuth.ApplyCosFrom` and `Azimuth.CosTableBeyond` state what it does |
| Azimuth.CosTableBeyond | rt1/rt1.py:141-142 | under the third table, a cosine power above `N + 4` becomes 0 |
| Azimuth.ApplyCosFrom | rt1/rt1.py:141-142 | term by term, the third table replaces each cosine power by its average |
| Azimuth.XReplaceCos | rt1/rt1.py:140-142 | the third pass turns a cosine polynomial of degree at most `N + 4` into its average |
| Azimuth.IntegrateCosines | rt1/rt1.py:140-143 | the third pass on each sine row; `Azimuth.IntegrateCosinesMean` states its result |
| Azimuth.IntegratePhis | rt1/rt1.py:125-143 | `_integrate_0_2pi_phis` with the first pass as its comment states; `Azimuth.IntegratePhisMean` states its result |
| Azimuth.IntegratePhisAsWritten | rt1/rt1.py:125-143 | `_integrate_0_2pi_phis` as written; `Azimuth.IntegratePhisAsWrittenMean` states its result |
| Azimuth.CosineOnlyMean | rt1/rt1.py:140-142 | the sine rows of a polynomial in the cosine alone add nothing to its average |
| Azimuth.IntegrateCosinesMean | rt1/rt1.py:140-143 | on a polynomial in the cosine alone, the third pass leaves no sine power and a constant equal to the average |
| Azimuth.IntegratePhisMean | rt1/rt1.py:125-143 | the three passes leave no power of `sin(phi_s)` and give, at every point, the average over one period of `phi_s` |
| Azimuth.IntegratePhisAsWrittenMean | rt1/rt1.py:130-143 | with the first pass as written, the result is the average of the sine-free row alone |
| Azimuth.IntegratePhisAsWrittenLosesSquare | rt1/rt1.py:133-134 | the as-written pipeline gives 0 for `sin^2(phi_s)`, the intended one gives 1/2 |
| Azimuth.ValueAtOrigin | rt1/rt1.py:140-143 | a polynomial in the cosine alone is, at the origin, the constant term of its row 0 |
| Azimuth.PhiAverage | rt1/rt1.py:125-143 | the number left by the three passes is the average over one period of `phi_s` |
| Rt1.AveragePhis | rt1/rt1.py:98-101 | every coefficient of the two-angle expansion becomes its average over `phi_s`, in the same place |
| Rt1.InteractionExpansion | rt1/rt1.py:81-109 | `_calc_interaction_expansion` from the expanded product on; `Rt1.InteractionExpansionValue` and `Rt1.InteractionExpansionShape` state its value and shape |
| Rt1.LinearTermAveragesOut | rt1/rt1.py:90-101 | the term `sin(theta_s) sin(phi_s)` of a linear phase function meets the hypothesis of `Rt1.InteractionExpansionShape` |
| Rt1.InteractionExpansionValue | rt1/rt1.py:103-106 | the `sin(theta_s)` rewrite keeps the value of the averaged expansion on the unit circle |
| Rt1.InteractionExpansionShape | rt1/rt1.py:103-106 | when every odd power of `sin(theta_s)` averages to 0 over `phi_s`, every coefficient left beside a power of `sin(theta_s)` is 0, and the cosine polynomial has degree at most `N` |
| Rt1.Coefficients | rt1/rt1.py:57-74 | the intended coefficient list; `Rt1.RT1.ExtractCoefficients` computes it and `Rt1.CoefficientsRebuild` rebuilds the polynomial from it |
| Rt1.CoefficientsRebuild | rt1/rt1.py:57-74 | for a polynomial of degree at most `N`, `fn` has `N + 1` entries and `sum fn[k] c^k` is the polynomial |
| Rt1.CoefficientsOfInteraction | rt1/rt1.py:47-52 | when the odd powers of `sin(theta_s)` average out over `phi_s`, the coefficients of the interaction expansion give back the averaged expansion at every point of the unit circle |
| Rt1.RT1.ExtractCoefficients | rt1/rt1.py:57-74 | the loop builds `fn`: the constant term, then for each `nn` in `1..N` the coefficient of `c^nn`, plus for `nn == 1` the coefficients above `N` |
| Rt1.RT1.constructor | rt1/rt1.py:24-52 | the constructor stores its arguments and sets `fn` to the coefficients of the interaction expansion |
| Rt1.RT1.CalcFint | rt1/rt1.py:185-186 | the placeholder `_calc_Fint`, 0 for all arguments; `Rt1.RT1.FintSymmetric` and `Rt1.RT1.Interaction` use it |
| Rt1.RT1.Interaction | rt1/rt1.py:177-183 | with finite exponentials, the interaction contribution is 0 |
| Rt1.RT1.Calc | rt1/rt1.py:147-163 | the total is the sum of the three contributions; the interaction part is 0; without a canopy the volume part is 0 and the total is the surface part |
| Rt1.RT1.FintSymmetric | rt1/rt1.py:185-186 | the two Fint terms of `interaction()` are equal |
| Reals.CosIntegralAlgebra | rt1/rt1.py:119-120 | the expression of `_cosintegral` reduces to the ratio `f / (h^2 w)` |
| Reals.CosMeanStep | rt1/rt1.py:119-120 | one step of the closed form from `2k - 2` to `2k` is the factor `(2k - 1)/(2k)` |

## Left out

- sympy itself is not part of this model. `expand`, `doit`, `legendre` and
  `xreplace` on arbitrary trees are not modelled. Only fixed polynomial
  representations and `xreplace` of powers of one sine or cosine are.
- The expanded product `2 pi * volexp * brdfexp` (rt1/rt1.py:90-98) is an
  argument (`Expansion`). The `legexpansion` of the volume and surface
  modules is not part of this model.
- `surface()` and `volume()` use `np.exp` and the phase functions `SRF.brdf`
  and `RV.p` of modules that are not part of this model. `Calc` takes their
  values, and the two exponentials of `interaction()`, as arguments.
- `theta_0` and `theta_ex`, the `np.arccos` of `mu_0` and `mu_ex`
  (rt1/rt1.py:36-37), are not stored. Only the surface and volume use them.
- The `print` statements at rt1/rt1.py:53-54 are output.
- `_calc_Fintxx` and the commented-out `CC` and `intback` are dead code. They
  use the undefined `nmax` and the special functions `expn` and `expi`.
- The plotting module `rt1/rtplots.py`, `setup.py` and the tests are not
  modelled. The tests only supply the symmetry that `Rt1.RT1.FintSymmetric`
  states.
- Floating point: all arithmetic is exact. The float literals `1.`, `0.`
  and `2.` of the tables are the exact numbers.
- Azimuth.GammaFunkt: only even `x` is modelled. That is the only case that
  `_cosintegral` calls. For an odd `x`, `factorial(x/2.)` is a Gamma value.
- Trig.RewriteEvenSines: the exponent `2.` of `cos(theta_s)**2.` at
  rt1/rt1.py:105 is read as the integer 2. Whether sympy then matches the
  resulting float exponents against the integer keys of the extraction
  tables is outside this model.
- Azimuth.PhiAverage: requires every azimuth polynomial to have total degree
  at most `N + 4`, which is where the tables of rt1/rt1.py:133-141 stop.
  Above that, `xreplace` replaces the base `cos(phi_s)` by
  `_cosintegral(1) == 0` (`Azimuth.CosTableBeyond`). The power is then lost
  and not averaged. `Rt1.AveragePhis` and the constructor inherit this
  requirement.
- Rt1.RT1.constructor: the coefficients are read from the
  `cos(theta_s)` polynomial of row 0 only. A power of `sin(theta_s)` whose
  coefficient does not vanish would stay symbolic inside each entry of the
  source's `fn`; that part is not carried. `Rt1.InteractionExpansionShape`
  states when every such coefficient is 0: each odd power of `sin(theta_s)`
  averages out over `phi_s`, and the total degree is at most `N`.
- Rt1.RT1.Interaction: the exponentials `exp(-tau / mu_ex)` and
  `exp(-tau / mu_0)` are arguments and finite reals. The source divides by
  `mu_ex` and `mu_0` at rt1/rt1.py:183, so `mu == 0` raises
  `ZeroDivisionError` there, and a `np.exp` that overflows to `inf` gives
  `inf * 0. == nan`. Neither path is modelled.
- Rt1.RT1: `RV` and `SRF` are copied as values. The source keeps shared
  references, so a later change to `RV.tau` made through another reference
  is seen by `calc`. The model does not capture this aliasing.
- Azimuth.IntegratePhis: models the first pass as its comment at
  rt1/rt1.py:132 states, because of the finding below. The code as written
  is `Azimuth.IntegratePhisAsWritten`.

## Findings

| source | as written | input that shows it | evidently intended | confidence | as-written member | corrected member |
|---|---|---|---|---|---|---|
| rt1/rt1.py:133-134 | The table holds the key `sin(phi_s)**1`, which is `sin(phi_s)` itself. `xreplace` descends into `sin(phi_s)**2`, which is not a key, and replaces its base by 0. So every power of `sin(phi_s)` becomes 0, the even ones too. | `sin(phi_s)**2`: its average over one period is 1/2, the three passes give 0 | only the whole odd powers become 0, as the comment at rt1/rt1.py:132 says; the even powers reach the `1 - cos^2` rewrite | high, from sympy's documented `xreplace` rule; not executed | Azimuth.IntegratePhisAsWrittenLosesSquare | Azimuth.IntegratePhisMean |
