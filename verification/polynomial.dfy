/** Polynomials with integer coefficients, lowest degree first: c[0] is the
    constant term, which is where the Go program stores the secret.

    `Eval` (Horner's rule, exact integers) is the reference meaning of a
    coefficient list; the program's own evaluation is `EvaluatePolynomial`.
    The remaining operations exist for the interpolation proof: a polynomial
    of fewer than k coefficients that vanishes modulo Prime at k points that
    are distinct modulo Prime vanishes everywhere modulo Prime. */
module Polynomial {
  import opened Arith
  import opened Primality

  /** The value of c at x, without reduction. */
  function Eval(c: seq<int>, x: int): int {
    if |c| == 0 then 0 else c[0] + x * Eval(c[1..], x)
  }

  /** The empty polynomial is zero; a constant is itself. */
  lemma EvalShort(a: int, z: int)
    ensures Eval([], z) == 0 && Eval([a], z) == a
  {
  }

  /** Horner's rule, one coefficient at a time. */
  lemma EvalCons(a: int, p: seq<int>, x: int)
    ensures Eval([a] + p, x) == a + x * Eval(p, x)
  {
    assert ([a] + p)[1..] == p;
  }

  function Power(x: int, n: nat): int {
    if n == 0 then 1 else x * Power(x, n - 1)
  }

  /** c[0] + c[1]*x + ... + c[n-1]*x^(n-1), summed in the order of the Go loop,
      which keeps x^i in `xPower` and adds one term per iteration. */
  function PowerSum(c: seq<int>, n: nat, x: int): int
    requires n <= |c|
  {
    if n == 0 then 0 else PowerSum(c, n - 1, x) + c[n - 1] * Power(x, n - 1)
  }

  /** `evaluatePolynomial`: the power sum reduced modulo Prime. */
  function EvaluatePolynomial(c: seq<int>, x: int): (r: int)
    requires |c| >= 1
    ensures 0 <= r < Prime
    ensures r == Eval(c, x) % Prime
  {
    PowerSumIsEval(c, |c|, x);
    assert c[..|c|] == c;
    PowerSum(c, |c|, x) % Prime
  }

  /** Appending a coefficient adds one highest-degree term. */
  lemma {:induction false} EvalSnoc(p: seq<int>, a: int, x: int)
    ensures Eval(p + [a], x) == Eval(p, x) + a * Power(x, |p|)
    decreases |p|
  {
    if |p| > 0 {
      assert (p + [a])[1..] == p[1..] + [a];
      EvalSnoc(p[1..], a, x);
      var e := Eval(p[1..], x);
      var w := Power(x, |p| - 1);
      assert x * (e + a * w) == x * e + a * (x * w);
    }
  }

  lemma {:induction false} PowerSumIsEval(c: seq<int>, n: nat, x: int)
    requires n <= |c|
    ensures PowerSum(c, n, x) == Eval(c[..n], x)
  {
    if n > 0 {
      PowerSumIsEval(c, n - 1, x);
      assert c[..n] == c[..n - 1] + [c[n - 1]];
      EvalSnoc(c[..n - 1], c[n - 1], x);
    }
  }

  /** The constant term is the value at 0. */
  lemma EvalAtZero(c: seq<int>)
    requires |c| >= 1
    ensures Eval(c, 0) == c[0]
  {
  }

  /** Coefficient-wise sum; the shorter list is padded with zeros. */
  function Add(p: seq<int>, q: seq<int>): (r: seq<int>)
    ensures |r| == if |p| < |q| then |q| else |p|
  {
    if |p| == 0 then q
    else if |q| == 0 then p
    else [p[0] + q[0]] + Add(p[1..], q[1..])
  }

  function Scale(a: int, p: seq<int>): (r: seq<int>)
    ensures |r| == |p|
  {
    if |p| == 0 then [] else [a * p[0]] + Scale(a, p[1..])
  }

  /** p - q. */
  function Sub(p: seq<int>, q: seq<int>): (r: seq<int>)
    ensures |r| == if |p| < |q| then |q| else |p|
  {
    Add(p, Scale(-1, q))
  }

  /** (X - a) * p. */
  function MulLinear(p: seq<int>, a: int): (r: seq<int>)
    ensures |r| == |p| + 1
  {
    Add([0] + p, Scale(-a, p))
  }

  lemma {:induction false} EvalAdd(p: seq<int>, q: seq<int>, x: int)
    ensures Eval(Add(p, q), x) == Eval(p, x) + Eval(q, x)
    decreases |p|
  {
    if |p| > 0 && |q| > 0 {
      EvalAdd(p[1..], q[1..], x);
      var a, b := Eval(p[1..], x), Eval(q[1..], x);
      assert x * (a + b) == x * a + x * b;
    }
  }

  lemma {:induction false} EvalScale(a: int, p: seq<int>, x: int)
    ensures Eval(Scale(a, p), x) == a * Eval(p, x)
    decreases |p|
  {
    if |p| > 0 {
      EvalScale(a, p[1..], x);
      var e := Eval(p[1..], x);
      assert x * (a * e) == a * (x * e);
    }
  }

  lemma EvalSub(p: seq<int>, q: seq<int>, x: int)
    ensures Eval(Sub(p, q), x) == Eval(p, x) - Eval(q, x)
  {
    EvalAdd(p, Scale(-1, q), x);
    EvalScale(-1, q, x);
  }

  lemma EvalMulLinear(p: seq<int>, a: int, x: int)
    ensures Eval(MulLinear(p, a), x) == (x - a) * Eval(p, x)
  {
    hide Eval, Add, Scale;
    EvalAdd([0] + p, Scale(-a, p), x);
    EvalScale(-a, p, x);
    EvalCons(0, p, x);
    var e := Eval(p, x);
    assert x * e + (-a) * e == (x - a) * e;
  }

  /** Synthetic division of c by (X - r): the quotient's coefficients. */
  function Quotient(c: seq<int>, r: int): (q: seq<int>)
    ensures |q| == if |c| == 0 then 0 else |c| - 1
  {
    if |c| <= 1 then [] else [Eval(c[1..], r)] + Quotient(c[1..], r)
  }

  /** c(x) = c(r) + (x - r) * q(x) for the quotient q of c by (X - r). */
  lemma {:induction false} SyntheticDivision(c: seq<int>, r: int, x: int)
    ensures Eval(c, x) == Eval(c, r) + (x - r) * Eval(Quotient(c, r), x)
    decreases |c|
  {
    hide Eval;
    if |c| == 0 {
      EvalShort(0, x);
      EvalShort(0, r);
      assert c == [] && Quotient(c, r) == [];
    } else if |c| == 1 {
      EvalShort(c[0], x);
      EvalShort(c[0], r);
      assert c == [c[0]] && Quotient(c, r) == [];
    } else {
      var d := c[1..];
      SyntheticDivision(d, r, x);
      var q := Quotient(d, r);
      var dr, qx := Eval(d, r), Eval(q, x);
      assert c == [c[0]] + d;
      assert Quotient(c, r) == [dr] + q;
      EvalCons(c[0], d, x);
      EvalCons(c[0], d, r);
      EvalCons(dr, q, x);
      SyntheticStep(c[0], x, r, dr, qx);
    }
  }

  /** The ring identity behind one step of synthetic division. */
  lemma SyntheticStep(c0: int, x: int, r: int, dr: int, qx: int)
    ensures c0 + x * (dr + (x - r) * qx) == c0 + r * dr + (x - r) * (dr + x * qx)
  {
    assert x * (dr + (x - r) * qx) == x * dr + x * ((x - r) * qx);
    assert (x - r) * (dr + x * qx) == (x - r) * dr + (x - r) * (x * qx);
    assert x * ((x - r) * qx) == (x - r) * (x * qx);
  }

  /** The nodes are pairwise different modulo Prime. */
  predicate DistinctModPrime(xs: seq<int>) {
    forall a, b :: 0 <= a < b < |xs| ==> (xs[a] - xs[b]) % Prime != 0
  }

  /** h vanishes modulo Prime at every node. */
  predicate VanishesAt(h: seq<int>, xs: seq<int>) {
    forall a :: 0 <= a < |xs| ==> Eval(h, xs[a]) % Prime == 0
  }

  /** A polynomial with at most as many coefficients as there are distinct
      nodes, vanishing modulo Prime at all of them, vanishes everywhere. */
  lemma {:induction false} Vanish(h: seq<int>, xs: seq<int>, z: int)
    requires |h| <= |xs| && DistinctModPrime(xs) && VanishesAt(h, xs)
    ensures Eval(h, z) % Prime == 0
    decreases |xs|
  {
    if |h| > 0 {
      var last := |xs| - 1;
      var r := xs[last];
      var ys := xs[..last];
      var q := Quotient(h, r);
      assert Eval(h, r) % Prime == 0;
      forall a | 0 <= a < |ys|
        ensures Eval(q, ys[a]) % Prime == 0
      {
        assert ys[a] == xs[a];
        SyntheticDivision(h, r, ys[a]);
        DivisionCancels(Eval(h, ys[a]), Eval(h, r), ys[a] - r, Eval(q, ys[a]));
      }
      Vanish(q, ys, z);
      SyntheticDivision(h, r, z);
      ZeroCombination(Eval(h, r), z - r, Eval(q, z));
    }
  }

  /** If hy = hr + d * e with hy, hr = 0 and d != 0 modulo Prime, then e = 0 modulo Prime. */
  lemma DivisionCancels(hy: int, hr: int, d: int, e: int)
    requires hy == hr + d * e && hy % Prime == 0 && hr % Prime == 0 && d % Prime != 0
    ensures e % Prime == 0
  {
    SubMod(hy, hr, Prime);
    assert d * e == hy - hr;
    EuclidPrime(d, e);
  }

  /** hr + d * e is 0 modulo Prime when hr and e are. */
  lemma ZeroCombination(hr: int, d: int, e: int)
    requires hr % Prime == 0 && e % Prime == 0
    ensures (hr + d * e) % Prime == 0
  {
    MulModRight(d, e, Prime);
    AddMod(hr, d * e, Prime);
  }

  /** c and g agree modulo Prime at x exactly when c - g vanishes there. */
  lemma AgreeAt(c: seq<int>, g: seq<int>, x: int)
    ensures Eval(Sub(c, g), x) % Prime == 0 <==> Eval(c, x) % Prime == Eval(g, x) % Prime
  {
    EvalSub(c, g, x);
    SameRemainder(Eval(c, x), Eval(g, x), Prime);
  }

  /** Two polynomials of at most k coefficients that agree modulo Prime at k
      distinct nodes agree modulo Prime everywhere. */
  lemma Agree(c: seq<int>, g: seq<int>, xs: seq<int>, z: int)
    requires |c| <= |xs| && |g| <= |xs| && DistinctModPrime(xs)
    requires forall a :: 0 <= a < |xs| ==> Eval(c, xs[a]) % Prime == Eval(g, xs[a]) % Prime
    ensures Eval(c, z) % Prime == Eval(g, z) % Prime
  {
    var h := Sub(c, g);
    forall a | 0 <= a < |xs|
      ensures Eval(h, xs[a]) % Prime == 0
    {
      AgreeAt(c, g, xs[a]);
    }
    Vanish(h, xs, z);
    AgreeAt(c, g, z);
  }
}
