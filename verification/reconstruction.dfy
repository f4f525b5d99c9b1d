/** Correctness of `lagrangeInterpolation`: when the first k points have x
    coordinates that differ modulo Prime and lie on a polynomial of at most k
    coefficients, the Go loop computes that polynomial's constant term modulo Prime.

    The proof builds, as a coefficient list, the interpolant
      g = sum over i of y_i * inv_i * prod over j != i of (X - x_j)
    whose value at 0 is the Go sum, shows that g agrees with the original
    polynomial modulo Prime at the k nodes, and concludes with `Agree`. */
module Reconstruction {
  import opened Outcome
  import opened Arith
  import opened Primality
  import opened Field
  import opened Polynomial
  import opened Shamir

  /** The Lagrange product for basis i vanishes at every other node. */
  lemma {:induction false} ProductVanishesAtOtherNode(xs: seq<int>, i: int, n: nat, a: nat)
    requires n <= |xs| && a < n && a != i
    ensures LagrangeProduct(xs, i, n, xs[a]) == 0
  {
    if a < n - 1 {
      ProductVanishesAtOtherNode(xs, i, n - 1, a);
    }
  }

  /** The Lagrange product is nonzero modulo Prime exactly when each of its
      factors is. */
  lemma {:induction false} ProductNonzero(xs: seq<int>, i: int, n: nat, z: int)
    requires n <= |xs|
    ensures LagrangeProduct(xs, i, n, z) % Prime != 0 <==>
            forall j :: 0 <= j < n && j != i ==> (z - xs[j]) % Prime != 0
  {
    if n > 0 {
      ProductNonzero(xs, i, n - 1, z);
      if n - 1 != i {
        var p := LagrangeProduct(xs, i, n - 1, z);
        var f := z - xs[n - 1];
        if p % Prime != 0 && f % Prime != 0 {
          NonzeroProduct(p, f);
        } else {
          ZeroFactor(p, f);
        }
      }
    }
  }

  /** A product with a factor that is 0 modulo Prime is 0 modulo Prime. */
  lemma ZeroFactor(p: int, f: int)
    requires p % Prime == 0 || f % Prime == 0
    ensures (p * f) % Prime == 0
  {
    MulModRight(p, f, Prime);
    MulModLeft(p, f, Prime);
  }

  /** x - y and y - x are multiples of Prime together. */
  lemma DifferenceSymmetric(x: int, y: int)
    ensures (x - y) % Prime == 0 <==> (y - x) % Prime == 0
  {
    SameRemainder(x, y, Prime);
    SameRemainder(y, x, Prime);
  }

  /** Every Lagrange denominator is invertible exactly when the x coordinates
      are pairwise distinct modulo Prime. */
  lemma DenominatorsNonzeroIffDistinct(pts: seq<Point>)
    ensures (forall i :: 0 <= i < |pts| ==> Denominator(pts, i) != 0) <==> DistinctModPrime(Nodes(pts))
  {
    var xs := Nodes(pts);
    if forall i :: 0 <= i < |pts| ==> Denominator(pts, i) != 0 {
      forall a, b | 0 <= a < b < |xs|
        ensures (xs[a] - xs[b]) % Prime != 0
      {
        assert Denominator(pts, a) != 0;
        ProductNonzero(xs, a, |pts|, pts[a].x);
      }
    }
    if DistinctModPrime(xs) {
      forall i | 0 <= i < |pts|
        ensures Denominator(pts, i) != 0
      {
        forall j | 0 <= j < |pts| && j != i
          ensures (pts[i].x - xs[j]) % Prime != 0
        {
          DifferenceSymmetric(xs[i], xs[j]);
        }
        ProductNonzero(xs, i, |pts|, pts[i].x);
      }
    }
  }

  /** The coefficients of the product of (X - xs[j]) over j < n, j != i. */
  function BasisPoly(xs: seq<int>, i: int, n: nat): (p: seq<int>)
    requires n <= |xs|
    ensures |p| == if 0 <= i < n then n else n + 1
  {
    if n == 0 then [1]
    else if n - 1 == i then BasisPoly(xs, i, n - 1)
    else MulLinear(BasisPoly(xs, i, n - 1), xs[n - 1])
  }

  lemma {:induction false} EvalBasisPoly(xs: seq<int>, i: int, n: nat, z: int)
    requires n <= |xs|
    ensures Eval(BasisPoly(xs, i, n), z) == LagrangeProduct(xs, i, n, z)
  {
    hide Eval, MulLinear;
    if n == 0 {
      EvalShort(1, z);
    } else {
      EvalBasisPoly(xs, i, n - 1, z);
      if n - 1 != i {
        EvalMulLinear(BasisPoly(xs, i, n - 1), xs[n - 1], z);
      }
    }
  }

  /** The inverse `modInverse` returns for the denominator of basis i (0 when there is none). */
  function Inv(pts: seq<Point>, i: nat): (v: int)
    requires i < |pts|
    ensures Denominator(pts, i) != 0 ==> IsInverse(Denominator(pts, i), v, Prime)
  {
    ModInversePrime(Denominator(pts, i));
    match ModInverse(Denominator(pts, i), Prime)
    case Some(v) => v
    case None => 0
  }

  /** y_i * inv_i, the weight of basis i in the interpolant. */
  function Weight(pts: seq<Point>, i: nat): int
    requires i < |pts|
  {
    pts[i].y * Inv(pts, i)
  }

  /** The interpolant's coefficients, summing the first n weighted bases. */
  function Interpolant(pts: seq<Point>, n: nat): (g: seq<int>)
    requires n <= |pts|
    ensures |g| <= |pts|
  {
    if n == 0 then []
    else Add(Interpolant(pts, n - 1), Scale(Weight(pts, n - 1), BasisPoly(Nodes(pts), n - 1, |pts|)))
  }

  /** The interpolant's value, summed term by term. */
  function InterpolantValue(pts: seq<Point>, n: nat, z: int): int
    requires n <= |pts|
  {
    if n == 0 then 0
    else InterpolantValue(pts, n - 1, z) + Weight(pts, n - 1) * LagrangeProduct(Nodes(pts), n - 1, |pts|, z)
  }

  lemma {:induction false} EvalInterpolant(pts: seq<Point>, n: nat, z: int)
    requires n <= |pts|
    ensures Eval(Interpolant(pts, n), z) == InterpolantValue(pts, n, z)
  {
    hide Eval, Add, Scale, BasisPoly, Inv;
    if n == 0 {
      EvalShort(0, z);
    } else {
      EvalInterpolant(pts, n - 1, z);
      var w := Weight(pts, n - 1);
      var b := BasisPoly(Nodes(pts), n - 1, |pts|);
      assert Interpolant(pts, n) == Add(Interpolant(pts, n - 1), Scale(w, b));
      EvalAdd(Interpolant(pts, n - 1), Scale(w, b), z);
      EvalScale(w, b, z);
      EvalBasisPoly(Nodes(pts), n - 1, |pts|, z);
    }
  }

  /** Multiplying y by an inverse of D and by D gives back y modulo Prime. */
  lemma InverseCancels(y: int, inv: int, d: int)
    requires IsInverse(d % Prime, inv, Prime)
    ensures ((y * inv) * d) % Prime == y % Prime
  {
    MulModLeft(d, inv, Prime);
    assert (d * inv) % Prime == 1;
    MulModRight(y, inv * d, Prime);
    assert (y * inv) * d == y * (inv * d);
    assert inv * d == d * inv;
  }

  /** At node a, the first n terms of the interpolant sum to y_a modulo Prime
      if a is among them and to 0 otherwise. */
  lemma {:induction false} ValueAtNode(pts: seq<Point>, n: nat, a: nat)
    requires n <= |pts| && a < |pts| && Denominator(pts, a) != 0
    ensures InterpolantValue(pts, n, pts[a].x) % Prime == if a < n then pts[a].y % Prime else 0
  {
    hide Inv, Eval;
    if n > 0 {
      ValueAtNode(pts, n - 1, a);
      var prev := InterpolantValue(pts, n - 1, pts[a].x);
      var term := Weight(pts, n - 1) * LagrangeProduct(Nodes(pts), n - 1, |pts|, pts[a].x);
      if n - 1 == a {
        InverseCancels(pts[a].y, Inv(pts, a), LagrangeProduct(Nodes(pts), a, |pts|, pts[a].x));
        AddMod(prev, term, Prime);
        ModOfRemainder(pts[a].y, Prime);
      } else {
        assert Nodes(pts)[a] == pts[a].x;
        ProductVanishesAtOtherNode(Nodes(pts), n - 1, |pts|, a);
      }
    }
  }

  /** One step of the Go sum and one term of the interpolant at 0 agree modulo Prime. */
  lemma StepCongruent(acc: int, prev: int, y: int, num: int, inv: int)
    requires acc % Prime == prev % Prime
    ensures (acc + y * ((num * inv) % Prime)) % Prime == (prev + (y * inv) * num) % Prime
  {
    MulModRight(y, num * inv, Prime);
    assert y * (num * inv) == (y * inv) * num;
    AddMod(acc, y * ((num * inv) % Prime), Prime);
    AddMod(prev, (y * inv) * num, Prime);
  }

  /** The Go sum and the interpolant's value at 0 agree modulo Prime. */
  lemma {:induction false} SumIsInterpolantAtZero(pts: seq<Point>, n: nat)
    requires n <= |pts| && forall i :: 0 <= i < n ==> Denominator(pts, i) != 0
    ensures InterpolationSum(pts, n).Success?
    ensures InterpolationSum(pts, n).value % Prime == InterpolantValue(pts, n, 0) % Prime
  {
    if n > 0 {
      SumIsInterpolantAtZero(pts, n - 1);
      var i := n - 1;
      var acc := InterpolationSum(pts, i).value;
      var num, y, inv := Numerator(pts, i), pts[i].y, Inv(pts, i);
      assert BasisValue(pts, i) == Some((num * inv) % Prime);
      assert InterpolationSum(pts, n).value == acc + y * ((num * inv) % Prime);
      assert InterpolantValue(pts, n, 0) == InterpolantValue(pts, i, 0) + (y * inv) * num;
      StepCongruent(acc, InterpolantValue(pts, i, 0), y, num, inv);
    }
  }

  /** Interpolation through points whose x coordinates are distinct modulo
      Prime and whose y coordinates are the values of c modulo Prime, where c
      has at most as many coefficients as there are points, yields c(0) modulo Prime. */
  lemma InterpolationRecoversConstantTerm(pts: seq<Point>, c: seq<int>)
    requires |c| <= |pts| && DistinctModPrime(Nodes(pts))
    requires forall i :: 0 <= i < |pts| ==> pts[i].y % Prime == Eval(c, pts[i].x) % Prime
    ensures InterpolationSum(pts, |pts|).Success?
    ensures InterpolationSum(pts, |pts|).value % Prime == Eval(c, 0) % Prime
  {
    DenominatorsNonzeroIffDistinct(pts);
    var g := Interpolant(pts, |pts|);
    var xs := Nodes(pts);
    forall a | 0 <= a < |xs|
      ensures Eval(c, xs[a]) % Prime == Eval(g, xs[a]) % Prime
    {
      ValueAtNode(pts, |pts|, a);
      EvalInterpolant(pts, |pts|, xs[a]);
    }
    Agree(c, g, xs, 0);
    EvalInterpolant(pts, |pts|, 0);
    SumIsInterpolantAtZero(pts, |pts|);
  }

  /** `lagrangeInterpolation` succeeds on at least `threshold` points exactly
      when the first `threshold` x coordinates are distinct modulo Prime. */
  lemma InterpolationDefinedIffDistinct(s: Scheme, pts: seq<Point>)
    requires 0 <= s.threshold <= |pts|
    ensures LagrangeInterpolation(s, pts).Success? <==> DistinctModPrime(Nodes(pts[..s.threshold]))
    ensures LagrangeInterpolation(s, pts).Failure? ==> LagrangeInterpolation(s, pts).error == NoInverse
  {
    DenominatorsNonzeroIffDistinct(pts[..s.threshold]);
  }

  /** Interpolation through the first `threshold` points, when they lie on a
      polynomial c of at most `threshold` coefficients modulo Prime and have
      distinct x modulo Prime, returns c(0) modulo Prime; later points are ignored. */
  lemma LagrangeInterpolationCorrect(s: Scheme, pts: seq<Point>, c: seq<int>)
    requires 0 <= s.threshold <= |pts| && |c| <= s.threshold
    requires DistinctModPrime(Nodes(pts[..s.threshold]))
    requires forall i :: 0 <= i < s.threshold ==> pts[i].y % Prime == Eval(c, pts[i].x) % Prime
    ensures LagrangeInterpolation(s, pts) == Success(Eval(c, 0) % Prime)
  {
    var used := pts[..s.threshold];
    InterpolationRecoversConstantTerm(used, c);
    ModOfRemainder(Eval(c, 0), Prime);
  }

  /** A difference of two different share indices below Prime is not a multiple of Prime. */
  lemma SmallDifference(a: int, b: int)
    requires 0 <= a < Prime && 0 <= b < Prime && a != b
    ensures (a - b) % Prime != 0
  {
    if a > b {
      DivModUnique(a - b, Prime, 0, a - b);
    } else {
      DivModUnique(a - b, Prime, -1, a - b + Prime);
    }
  }

  /** The shares at positions sel[0], sel[1], ... of a share list. */
  function Select(shares: seq<Point>, sel: seq<int>): (r: seq<Point>)
    requires forall j :: 0 <= j < |sel| ==> 0 <= sel[j] < |shares|
    ensures |r| == |sel| && forall j :: 0 <= j < |sel| ==> r[j] == shares[sel[j]]
  {
    seq(|sel|, j requires 0 <= j < |sel| => shares[sel[j]])
  }

  /** No index is chosen twice. */
  predicate NoRepeats(sel: seq<int>) {
    forall a, b :: 0 <= a < b < |sel| ==> sel[a] != sel[b]
  }

  /** Any `threshold` different shares out of those `GenerateShares` produced,
      in any order, reconstruct the secret modulo Prime, as long as fewer than
      Prime shares were generated (so the x coordinates 1 .. numShares stay
      distinct modulo Prime). */
  lemma ReconstructFromAnyShares(s: Scheme, secret: int, rnd: seq<int>, shares: seq<Point>, sel: seq<int>)
    requires EnoughRandomness(s, rnd) && s.numShares < Prime
    requires GenerateShares(s, secret, rnd) == Success(shares)
    requires forall j :: 0 <= j < |sel| ==> 0 <= sel[j] < |shares|
    requires NoRepeats(sel) && |sel| >= s.threshold
    ensures ReconstructSecret(s, Select(shares, sel)) == Success(secret % Prime)
  {
    var c := GenerateCoefficients(s, secret, rnd).value;
    var pts := Select(shares, sel);
    var k := s.threshold;
    var xs := Nodes(pts[..k]);
    forall a, b | 0 <= a < b < |xs|
      ensures (xs[a] - xs[b]) % Prime != 0
    {
      SmallDifference(sel[a], sel[b]);
      assert xs[a] - xs[b] == sel[a] - sel[b];
    }
    forall i | 0 <= i < k
      ensures pts[i].y % Prime == Eval(c, pts[i].x) % Prime
    {
      ModOfRemainder(Eval(c, pts[i].x), Prime);
    }
    LagrangeInterpolationCorrect(s, pts, c);
  }

  /** The whole share list reconstructs the secret modulo Prime; a secret in
      [0, Prime) comes back unchanged. */
  lemma GenerateThenReconstruct(s: Scheme, secret: int, rnd: seq<int>)
    requires EnoughRandomness(s, rnd) && 1 <= s.threshold <= s.numShares < Prime
    ensures GenerateShares(s, secret, rnd).Success?
    ensures ReconstructSecret(s, GenerateShares(s, secret, rnd).value) == Success(secret % Prime)
    ensures 0 <= secret < Prime ==> ReconstructSecret(s, GenerateShares(s, secret, rnd).value) == Success(secret)
  {
    var shares := GenerateShares(s, secret, rnd).value;
    var sel := seq(|shares|, j requires 0 <= j => j);
    assert Select(shares, sel) == shares;
    ReconstructFromAnyShares(s, secret, rnd, shares, sel);
    if 0 <= secret < Prime {
      DivModUnique(secret, Prime, 0, secret);
    }
  }

  /** Two of the first `threshold` shares with the same x make reconstruction fail. */
  lemma RepeatedShareFails(s: Scheme, pts: seq<Point>, a: nat, b: nat)
    requires a < b < s.threshold <= |pts| && pts[a].x == pts[b].x
    ensures ReconstructSecret(s, pts) == Failure(NoInverse)
  {
    InterpolationDefinedIffDistinct(s, pts);
    assert Nodes(pts[..s.threshold])[a] - Nodes(pts[..s.threshold])[b] == 0;
  }
}
