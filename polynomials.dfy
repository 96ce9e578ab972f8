/** Polynomials in one cosine `c`, with exact real coefficients.

    `p[i]` is the coefficient of `c^i`; the empty sequence is the zero
    polynomial and trailing zeros do not change the value.  Coefficients that
    in the symbolic expression mention other symbols (the fixed incidence and
    exitance angles) are treated as opaque reals. */
module Polynomials {
  import opened Reals

  type Poly = seq<real>

  function Pow(x: real, n: nat): real
  {
    if n == 0 then 1.0 else x * Pow(x, n - 1)
  }

  /** `x^n * e`, one factor at a time. */
  function PowTimes(x: real, n: nat, e: real): real
  {
    if n == 0 then e else PowTimes(x, n - 1, x * e)
  }

  lemma {:induction false} PowTimesIsProduct(x: real, n: nat, e: real)
    ensures PowTimes(x, n, e) == Pow(x, n) * e
  {
    if n > 0 {
      PowTimesIsProduct(x, n - 1, x * e);
      Associate(PowTimes(x, n, e), x, Pow(x, n - 1), e, Pow(x, n));
    }
  }

  /** The value of `p` at `c` (Horner's scheme). */
  function Eval(p: Poly, c: real): real
  {
    if p == [] then 0.0 else p[0] + c * Eval(p[1..], c)
  }

  lemma EvalConstant(a: real, c: real)
    ensures Eval([a], c) == a
  {
    assert [a][1..] == [];
  }

  /** Coefficient of `c^i`, zero past the end of the list. */
  function Coef(p: Poly, i: nat): real
  {
    if i < |p| then p[i] else 0.0
  }

  function Add(p: Poly, q: Poly): (r: Poly)
    ensures |r| == if |p| < |q| then |q| else |p|
  {
    if p == [] then q
    else if q == [] then p
    else [p[0] + q[0]] + Add(p[1..], q[1..])
  }

  function Scale(x: real, p: Poly): (r: Poly)
    ensures |r| == |p|
  {
    if p == [] then [] else [x * p[0]] + Scale(x, p[1..])
  }

  /** The weighted sum `p[0] * w(k) + p[1] * w(k+1) + ...`. */
  function Dot(p: Poly, w: nat -> real, k: nat): real
    decreases |p|
  {
    if p == [] then 0.0 else p[0] * w(k) + Dot(p[1..], w, k + 1)
  }

  /** `p` padded with zeros (or cut) to exactly `n` coefficients. */
  function Padded(p: Poly, n: nat): (r: Poly)
    ensures |r| == n
    ensures forall i :: 0 <= i < n ==> r[i] == Coef(p, i)
  {
    seq(n, i requires 0 <= i < n => Coef(p, i))
  }

  /** One step of Horner's scheme. */
  lemma EvalCons(x: real, r: Poly, c: real)
    ensures Eval([x] + r, c) == x + c * Eval(r, c)
  {
    assert ([x] + r)[1..] == r;
  }

  lemma {:induction false} EvalAdd(p: Poly, q: Poly, c: real)
    ensures Eval(Add(p, q), c) == Eval(p, c) + Eval(q, c)
  {
    if p != [] && q != [] {
      var rest := Add(p[1..], q[1..]);
      EvalAdd(p[1..], q[1..], c);
      EvalCons(p[0] + q[0], rest, c);
      AddHorner(Eval(Add(p, q), c), p[0], q[0], c, Eval(rest, c), Eval(p[1..], c), Eval(q[1..], c),
        Eval(p, c), Eval(q, c));
    }
  }

  /** A list of zero coefficients is the zero polynomial. */
  lemma {:induction false} EvalZeros(p: Poly, c: real)
    requires forall i :: 0 <= i < |p| ==> p[i] == 0.0
    ensures Eval(p, c) == 0.0
  {
    if p != [] {
      EvalZeros(p[1..], c);
    }
  }

  /** Multiplying by `c` shifts the coefficients up by one. */
  lemma EvalShift(p: Poly, c: real)
    ensures Eval([0.0] + p, c) == c * Eval(p, c)
  {
    assert ([0.0] + p)[1..] == p;
  }

  lemma {:induction false} EvalScale(x: real, p: Poly, c: real)
    ensures Eval(Scale(x, p), c) == x * Eval(p, c)
  {
    if p != [] {
      var rest := Scale(x, p[1..]);
      EvalScale(x, p[1..], c);
      EvalCons(x * p[0], rest, c);
      ScaleHorner(Eval(Scale(x, p), c), x, p[0], c, Eval(rest, c), Eval(p[1..], c), Eval(p, c));
    }
  }

  lemma DotCons(x: real, r: Poly, w: nat -> real, k: nat)
    ensures Dot([x] + r, w, k) == x * w(k) + Dot(r, w, k + 1)
  {
    assert ([x] + r)[1..] == r;
  }

  lemma {:induction false} DotAdd(p: Poly, q: Poly, w: nat -> real, k: nat)
    ensures Dot(Add(p, q), w, k) == Dot(p, w, k) + Dot(q, w, k)
    decreases |p|
  {
    if p != [] && q != [] {
      var rest := Add(p[1..], q[1..]);
      DotAdd(p[1..], q[1..], w, k + 1);
      DotCons(p[0] + q[0], rest, w, k);
      AddSum(Dot(Add(p, q), w, k), p[0], q[0], w(k), Dot(rest, w, k + 1),
        Dot(p[1..], w, k + 1), Dot(q[1..], w, k + 1), Dot(p, w, k), Dot(q, w, k));
    }
  }

  lemma {:induction false} DotScale(x: real, p: Poly, w: nat -> real, k: nat)
    ensures Dot(Scale(x, p), w, k) == x * Dot(p, w, k)
    decreases |p|
  {
    if p != [] {
      var rest := Scale(x, p[1..]);
      DotScale(x, p[1..], w, k + 1);
      DotCons(x * p[0], rest, w, k);
      ScaleSum(Dot(Scale(x, p), w, k), x, p[0], w(k), Dot(rest, w, k + 1),
        Dot(p[1..], w, k + 1), Dot(p, w, k));
    }
  }

  /** Multiplying by `c^2` moves every weight up by two. */
  lemma DotShift(p: Poly, w: nat -> real, k: nat)
    ensures Dot([0.0, 0.0] + p, w, k) == Dot(p, w, k + 2)
  {
    assert [0.0, 0.0] + p == [0.0] + ([0.0] + p);
    DotCons(0.0, [0.0] + p, w, k);
    DotCons(0.0, p, w, k + 1);
  }

  /** Weights `w(i) == u(i) - u(i+2)` give `Dot(p, u, k) - Dot(p, u, k+2)`. */
  lemma {:induction false} DotDifference(p: Poly, u: nat -> real, w: nat -> real, k: nat)
    requires forall i :: k <= i ==> w(i) == u(i) - u(i + 2)
    ensures Dot(p, w, k) == Dot(p, u, k) - Dot(p, u, k + 2)
    decreases |p|
  {
    if p != [] {
      DotDifference(p[1..], u, w, k + 1);
      SubSum(Dot(p, w, k), p[0], w(k), u(k), u(k + 2),
        Dot(p[1..], w, k + 1), Dot(p[1..], u, k + 1), Dot(p[1..], u, k + 3),
        Dot(p, u, k), Dot(p, u, k + 2));
    }
  }

  /** Weights that agree on the powers of `p` give the same sum. */
  lemma {:induction false} DotSame(p: Poly, u: nat -> real, w: nat -> real, k: nat)
    requires forall i :: k <= i < k + |p| ==> u(i) == w(i)
    ensures Dot(p, u, k) == Dot(p, w, k)
    decreases |p|
  {
    if p != [] {
      DotSame(p[1..], u, w, k + 1);
    }
  }

  /** Zero weights give zero. */
  lemma {:induction false} DotZero(p: Poly, w: nat -> real, k: nat)
    requires forall i :: k <= i ==> w(i) == 0.0
    ensures Dot(p, w, k) == 0.0
    decreases |p|
  {
    if p != [] {
      DotZero(p[1..], w, k + 1);
    }
  }

  /** Padding with zeros does not change the value: the coefficient list
      of length `n` describes the same polynomial. */
  lemma {:induction false} EvalPadded(p: Poly, n: nat, c: real)
    requires |p| <= n
    ensures Eval(Padded(p, n), c) == Eval(p, c)
  {
    if n > 0 {
      assert Padded(p, n)[1..] == Padded(if p == [] then [] else p[1..], n - 1);
      EvalPadded(if p == [] then [] else p[1..], n - 1, c);
      if p == [] {
        assert Padded(p, n)[0] == 0.0;
      }
    }
  }
}
