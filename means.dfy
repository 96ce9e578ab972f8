/** The average of `sin^a * cos^b` over one period of the angle, as the
    closed form that the azimuth integration of rt1/rt1.py:111-143 is checked
    against, and the reduction formulas it obeys. */
module Means {
  import opened Reals

  /** `(n - 1)!! = 1 * 3 * ... * (n - 1)` for an even `n`; 0 for an odd `n`,
      where the product runs down to the factor `1 - 1`. */
  function OddFactorial(n: nat): nat
  {
    if n == 0 then 1 else if n == 1 then 0 else (n - 1) * OddFactorial(n - 2)
  }

  /** `n!! = n * (n - 2) * ...`. */
  function DoubleFactorial(n: nat): (r: nat)
    ensures r >= 1
  {
    if n <= 1 then 1 else n * DoubleFactorial(n - 2)
  }

  /** The average of `sin^a * cos^b` over one period, in closed form:
      `(a - 1)!! (b - 1)!! / (a + b)!!` when both powers are even, and 0 when
      either is odd. */
  function Mean(a: nat, b: nat): real
  {
    (OddFactorial(a) * OddFactorial(b)) as real / DoubleFactorial(a + b) as real
  }

  lemma OddStep(n: nat, m: nat)
    requires n == m + 2
    ensures OddFactorial(n) == (m + 1) * OddFactorial(m)
  {
  }

  lemma DoubleStep(n: nat, m: nat)
    requires n == m + 2
    ensures DoubleFactorial(n) == n * DoubleFactorial(m)
  {
  }

  /** The reduction formula of the cosine power, by parts:
      `M(a, b + 2) == (b + 1) / (a + b + 2) * M(a, b)`. */
  lemma CosineReduction(a: nat, b: nat)
    ensures Mean(a, b + 2) == (b + 1) as real / (a + b + 2) as real * Mean(a, b)
  {
    OddStep(b + 2, b);
    DoubleStep(a + (b + 2), a + b);
    ReduceQuotient(OddFactorial(a), OddFactorial(b + 2), OddFactorial(b),
      DoubleFactorial(a + (b + 2)), DoubleFactorial(a + b), b + 1, a + b + 2);
  }

  /** The reduction formula of the sine power:
      `M(a + 2, b) == (a + 1) / (a + b + 2) * M(a, b)`. */
  lemma SineReduction(a: nat, b: nat)
    ensures Mean(a + 2, b) == (a + 1) as real / (a + b + 2) as real * Mean(a, b)
  {
    OddStep(a + 2, a);
    DoubleStep(a + 2 + b, a + b);
    ReduceQuotient(OddFactorial(b), OddFactorial(a + 2), OddFactorial(a),
      DoubleFactorial(a + 2 + b), DoubleFactorial(a + b), a + 1, a + b + 2);
  }

  /** `sin^2 = 1 - cos^2` under the average: the identity behind every
      rewrite of an even sine power. */
  lemma PythagoreanMean(a: nat, b: nat)
    ensures Mean(a + 2, b) == Mean(a, b) - Mean(a, b + 2)
  {
    OddStep(a + 2, a);
    OddStep(b + 2, b);
    DoubleStep(a + 2 + b, a + b);
    DoubleStep(a + (b + 2), a + b);
    PythagoreanFraction(OddFactorial(a), OddFactorial(b), OddFactorial(a + 2), OddFactorial(b + 2),
      DoubleFactorial(a + b), DoubleFactorial(a + 2 + b), DoubleFactorial(a + (b + 2)),
      a + 1, b + 1, a + 2 + b, a + (b + 2));
  }

  lemma {:induction false} OddVanishes(n: nat)
    requires n % 2 == 1
    ensures OddFactorial(n) == 0
  {
    if n > 1 {
      OddVanishes(n - 2);
    }
  }

  /** An odd power of either the sine or the cosine averages to 0. */
  lemma OddMean(a: nat, b: nat)
    requires a % 2 == 1 || b % 2 == 1
    ensures Mean(a, b) == 0.0
  {
    OddVanishes(if a % 2 == 1 then a else b);
  }
}
