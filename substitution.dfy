/** `xreplace` of cosine powers by a substitution table, and the tables that
    coefficient extraction builds (rt1/rt1.py:63-73).

    A table maps a power `k >= 1` of the cosine to the number that replaces it.
    `xreplace` first tries the whole node `c^k`; when that is not a key it
    descends into the power and replaces its base `c`, which is the key for
    `k == 1` (`c^1` is `c` itself).  Every table below holds key 1, so every
    power is replaced and the result is a plain number. */
module Substitution {
  import opened Polynomials

  type Table = map<nat, real>

  /** What `c^k` becomes under `t`. */
  function Image(t: Table, k: nat): real
    requires 1 in t
  {
    if k == 0 then 1.0
    else if k in t then t[k]
    else Pow(t[1], k)
  }

  /** `k -> Image(t, k)`. */
  function ImageOf(t: Table): nat -> real
    requires 1 in t
  {
    (k: nat) => Image(t, k)
  }

  /** `xreplace` applied to the terms `p[i] * c^(k+i)`. */
  function ApplyFrom(p: Poly, t: Table, k: nat): real
    requires 1 in t
  {
    Dot(p, ImageOf(t), k)
  }

  /** `xreplace` applied to the polynomial `p`. */
  function XReplace(p: Poly, t: Table): real
    requires 1 in t
  {
    ApplyFrom(p, t, 0)
  }

  /** `{cos(theta_s): 0.}` (rt1/rt1.py:64). */
  const NullTable: Table := map[1 := 0.0]

  /** The pairs `(c^i, 0.)` for `i` in `lo..n`, `i != nn`, in order (rt1/rt1.py:71). */
  function ZeroEntries(lo: nat, n: nat, nn: nat): seq<(nat, real)>
    decreases n + 1 - lo
  {
    if lo > n then []
    else (if lo != nn then [(lo, 0.0)] else []) + ZeroEntries(lo + 1, n, nn)
  }

  /** The list handed to `dict` at rt1/rt1.py:72: the zero pairs, then `(c^nn, 1)`. */
  function PowerTableEntries(nn: nat, n: nat): seq<(nat, real)>
  {
    ZeroEntries(1, n, nn) + [(nn, 1.0)]
  }

  /** Python's `dict` of a list of pairs: a later pair overrides an earlier one. */
  function DictOf(e: seq<(nat, real)>): Table
  {
    if e == [] then map[] else map[e[0].0 := e[0].1] + DictOf(e[1..])
  }

  /** The powers `lo..n`. */
  function Powers(lo: nat, n: nat): (s: set<nat>)
    ensures forall k :: k in s <==> lo <= k <= n
    decreases n + 1 - lo
  {
    if lo > n then {} else {lo} + Powers(lo + 1, n)
  }

  /** The intended table: `c^nn` to 1 and every other `c^i`, `1 <= i <= n`, to 0. */
  function ExtractionTable(nn: nat, n: nat): Table
  {
    map k | k in Powers(1, n) :: if k == nn then 1.0 else 0.0
  }

  /** The table used for the coefficient of `c^nn` when the degree bound is
      `n`: the dict built at rt1/rt1.py:71-72 is the intended table. */
  function PowerTable(nn: nat, n: nat): (t: Table)
    requires 1 <= nn <= n
    ensures t == ExtractionTable(nn, n)
  {
    PowerTableShape(nn, n);
    DictOf(PowerTableEntries(nn, n))
  }

  /** Sum of the coefficients of the powers above `n` among `p[i] * c^(k+i)`. */
  function TailFrom(p: Poly, k: nat, n: nat): real
  {
    if p == [] then 0.0 else (if k > n then p[0] else 0.0) + TailFrom(p[1..], k + 1, n)
  }

  /** Sum of the coefficients of `c^i` for `i > n`. */
  function TailSum(p: Poly, n: nat): real
  {
    TailFrom(p, 0, n)
  }

  lemma {:induction false} ZeroEntriesKeys(lo: nat, n: nat, nn: nat)
    ensures forall a :: 0 <= a < |ZeroEntries(lo, n, nn)| ==>
      lo <= ZeroEntries(lo, n, nn)[a].0 <= n && ZeroEntries(lo, n, nn)[a].0 != nn
    ensures forall a, b :: 0 <= a < b < |ZeroEntries(lo, n, nn)| ==>
      ZeroEntries(lo, n, nn)[a].0 < ZeroEntries(lo, n, nn)[b].0
    decreases n + 1 - lo
  {
    if lo <= n {
      ZeroEntriesKeys(lo + 1, n, nn);
    }
  }

  /** The dict of the zero pairs of rt1/rt1.py:71. */
  function ZeroTable(lo: nat, n: nat, nn: nat): Table
  {
    map k | k in Powers(lo, n) - {nn} :: 0.0
  }

  lemma {:induction false} ZeroEntriesDict(lo: nat, n: nat, nn: nat)
    ensures DictOf(ZeroEntries(lo, n, nn)) == ZeroTable(lo, n, nn)
    decreases n + 1 - lo
  {
    if lo <= n {
      var rest := ZeroEntries(lo + 1, n, nn);
      ZeroEntriesDict(lo + 1, n, nn);
      ZeroTableStep(lo, n, nn);
      if lo != nn {
        var head: seq<(nat, real)> := [(lo, 0.0)];
        assert ZeroEntries(lo, n, nn) == head + rest;
        DictOfAppend(head, rest);
        assert head[1..] == [];
      } else {
        assert ZeroEntries(lo, n, nn) == rest;
      }
    } else {
      assert Powers(lo, n) == {};
    }
  }

  /** One step of `ZeroTable`: the key `lo` joins unless it is `nn`. */
  lemma ZeroTableStep(lo: nat, n: nat, nn: nat)
    requires lo <= n
    ensures ZeroTable(lo, n, nn) == if lo != nn then map[lo := 0.0] + ZeroTable(lo + 1, n, nn) else ZeroTable(lo + 1, n, nn)
  {
    var t, r := ZeroTable(lo, n, nn), ZeroTable(lo + 1, n, nn);
    var u := if lo != nn then map[lo := 0.0] + r else r;
    assert forall k :: k in t <==> k in u;
    assert forall k :: k in t ==> t[k] == u[k];
  }

  lemma {:induction false} DictOfAppend(a: seq<(nat, real)>, b: seq<(nat, real)>)
    ensures DictOf(a + b) == DictOf(a) + DictOf(b)
  {
    if a == [] {
      assert a + b == b;
    } else {
      assert (a + b)[0] == a[0] && (a + b)[1..] == a[1..] + b;
      DictOfAppend(a[1..], b);
      UnionAssociates(map[a[0].0 := a[0].1], DictOf(a[1..]), DictOf(b));
    }
  }

  lemma UnionAssociates(x: Table, y: Table, z: Table)
    ensures x + (y + z) == (x + y) + z
  {
    var l, r := x + (y + z), (x + y) + z;
    assert l.Keys == r.Keys;
    assert forall k :: k in l ==> l[k] == r[k];
  }

  /** No power is listed twice in the table of rt1/rt1.py:71-72, and the
      table is the intended one. */
  lemma PowerTableShape(nn: nat, n: nat)
    requires 1 <= nn <= n
    ensures forall a, b :: 0 <= a < b < |PowerTableEntries(nn, n)| ==>
      PowerTableEntries(nn, n)[a].0 != PowerTableEntries(nn, n)[b].0
    ensures DictOf(PowerTableEntries(nn, n)) == ExtractionTable(nn, n)
  {
    PowerEntriesDistinct(nn, n);
    var zs := ZeroEntries(1, n, nn);
    assert DictOf(PowerTableEntries(nn, n)) == ZeroTable(1, n, nn) + map[nn := 1.0] by {
      ZeroEntriesDict(1, n, nn);
      DictOfAppend(zs, [(nn, 1.0)]);
      assert [(nn, 1.0)][1..] == [];
    }
    var d, e := ZeroTable(1, n, nn) + map[nn := 1.0], ExtractionTable(nn, n);
    assert d.Keys == e.Keys;
    assert forall k :: k in d ==> d[k] == e[k];
  }

  lemma PowerEntriesDistinct(nn: nat, n: nat)
    ensures forall a, b :: 0 <= a < b < |PowerTableEntries(nn, n)| ==>
      PowerTableEntries(nn, n)[a].0 != PowerTableEntries(nn, n)[b].0
  {
    var zs := ZeroEntries(1, n, nn);
    var es := PowerTableEntries(nn, n);
    ZeroEntriesKeys(1, n, nn);
    forall a, b | 0 <= a < b < |es| ensures es[a].0 != es[b].0 {
      assert es[a] == zs[a];
      if b < |zs| {
        assert es[b] == zs[b];
      } else {
        assert es[b] == (nn, 1.0);
      }
    }
  }

  lemma {:induction false} PowOne(k: nat)
    ensures Pow(1.0, k) == 1.0
  {
    if k > 0 {
      PowOne(k - 1);
    }
  }

  lemma ApplyNullFrom(p: Poly, k: nat)
    requires k >= 1
    ensures ApplyFrom(p, NullTable, k) == 0.0
    decreases |p|
  {
    if p != [] {
      ApplyNullFrom(p[1..], k + 1);
    }
  }

  /** `fn[0]`: replacing `cos(theta_s)` by 0 leaves the constant term. */
  lemma XReplaceNull(p: Poly)
    ensures XReplace(p, NullTable) == Coef(p, 0)
  {
    if p != [] {
      ApplyNullFrom(p[1..], 1);
    }
  }

  lemma {:induction false} ApplyExtractionFrom(p: Poly, nn: nat, n: nat, k: nat)
    requires 1 <= nn <= n && k >= 1
    ensures ApplyFrom(p, ExtractionTable(nn, n), k) ==
      (if k <= nn < k + |p| then p[nn - k] else 0.0) + (if nn == 1 then TailFrom(p, k, n) else 0.0)
  {
    var t := ExtractionTable(nn, n);
    if p != [] {
      ApplyExtractionFrom(p[1..], nn, n, k + 1);
      if k > n {
        if nn == 1 {
          PowOne(k);
        } else {
          assert t[1] == 0.0;
          assert Pow(t[1], k) == 0.0;
        }
      }
    }
  }

  /** `fn[nn] + fn[0]`: under the table for `nn`, what survives is the constant
      term, the coefficient of `c^nn` and, for `nn == 1` only, every coefficient
      above the degree bound (their base `c` is replaced by 1). */
  lemma XReplacePower(p: Poly, nn: nat, n: nat)
    requires 1 <= nn <= n
    ensures XReplace(p, PowerTable(nn, n)) ==
      Coef(p, 0) + Coef(p, nn) + (if nn == 1 then TailSum(p, n) else 0.0)
  {
    if p != [] {
      ApplyExtractionFrom(p[1..], nn, n, 1);
    }
  }

  lemma {:induction false} TailFromZero(p: Poly, k: nat, n: nat)
    requires k + |p| <= n + 1
    ensures TailFrom(p, k, n) == 0.0
  {
    if p != [] {
      TailFromZero(p[1..], k + 1, n);
    }
  }
}
