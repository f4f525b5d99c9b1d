/** The (k, n) threshold scheme of the Go program: share generation by evaluating
    a random polynomial of k coefficients at x = 1 .. n, and reconstruction by
    Lagrange interpolation at 0 over the first k points, all modulo Prime. */
module Shamir {
  import opened Outcome
  import opened Arith
  import opened Primality
  import opened Field
  import opened Polynomial

  /** A share: the point (x, y) on the polynomial. */
  datatype Point = Point(x: int, y: int)

  /** `ShamirSecretSharing`: k shares of n reconstruct the secret. */
  datatype Scheme = Scheme(threshold: int, numShares: int)

  /** `NewShamirSecretSharing`: refuses a threshold above the number of shares. */
  function NewScheme(threshold: int, numShares: int): (r: Result<Scheme>)
    ensures r.Success? <==> threshold <= numShares
    ensures r.Success? ==> r.value.threshold == threshold && r.value.numShares == numShares
    ensures r.Failure? ==> r.error == ThresholdExceedsShares
  {
    if threshold > numShares then Failure(ThresholdExceedsShares)
    else Success(Scheme(threshold, numShares))
  }

  /** The random draws a scheme needs for one secret: one per coefficient after
      the first. Each stands for a value of `rand.Int(rand.Reader, PRIME)`. */
  predicate EnoughRandomness(s: Scheme, rnd: seq<int>) {
    |rnd| >= s.threshold - 1
  }

  /** `generateRandomCoefficients`: the secret followed by threshold - 1 random
      coefficients. A threshold below 1 leaves no slot for the secret and the
      Go program fails on `coefficients[0]`. */
  function GenerateCoefficients(s: Scheme, secret: int, rnd: seq<int>): (r: Result<seq<int>>)
    requires EnoughRandomness(s, rnd)
    ensures r.Success? <==> s.threshold >= 1
    ensures r.Failure? ==> r.error == ThresholdBelowOne
    ensures r.Success? ==> |r.value| == s.threshold && Eval(r.value, 0) == secret
    ensures r.Success? ==> forall i :: 1 <= i < |r.value| ==> r.value[i] == rnd[i - 1]
  {
    if s.threshold < 1 then Failure(ThresholdBelowOne)
    else
      var c := [secret] + rnd[..s.threshold - 1];
      EvalAtZero(c);
      Success(c)
  }

  /** `GenerateShares`: the points (i, f(i) mod Prime) for i = 1 .. numShares. */
  function GenerateShares(s: Scheme, secret: int, rnd: seq<int>): (r: Result<seq<Point>>)
    requires EnoughRandomness(s, rnd)
    ensures r.Success? <==> s.threshold >= 1 && s.numShares >= 0
    ensures r.Failure? ==> r.error == (if s.threshold < 1 then ThresholdBelowOne else NegativeCount)
    ensures r.Success? ==>
              var c := GenerateCoefficients(s, secret, rnd).value;
              |r.value| == s.numShares &&
              forall i :: 0 <= i < |r.value| ==>
                r.value[i].x == i + 1 && 0 <= r.value[i].y < Prime &&
                r.value[i].y == Eval(c, i + 1) % Prime
  {
    match GenerateCoefficients(s, secret, rnd)
    case Failure(e) => Failure(e)
    case Success(c) =>
      if s.numShares < 0 then Failure(NegativeCount)
      else Success(seq(s.numShares, i requires 0 <= i => Point(i + 1, EvaluatePolynomial(c, i + 1))))
  }

  /** With threshold 1 the polynomial is the constant secret, so every share's
      y is the secret modulo Prime. */
  lemma ThresholdOneShares(s: Scheme, secret: int, rnd: seq<int>)
    requires s.threshold == 1 && s.numShares >= 0
    ensures GenerateShares(s, secret, rnd).Success?
    ensures forall i :: 0 <= i < s.numShares ==> GenerateShares(s, secret, rnd).value[i].y == secret % Prime
  {
    var c := GenerateCoefficients(s, secret, rnd).value;
    assert c == [secret];
    forall x: int
      ensures Eval(c, x) == secret
    {
      EvalShort(secret, x);
    }
  }

  /** The x coordinates of a list of points. */
  function Nodes(pts: seq<Point>): (xs: seq<int>)
    ensures |xs| == |pts| && forall i :: 0 <= i < |pts| ==> xs[i] == pts[i].x
  {
    seq(|pts|, i requires 0 <= i < |pts| => pts[i].x)
  }

  /** The product of (z - xs[j]) over j < n, j != i, multiplied in increasing j.
      At z = 0 it is the `numerator` of the Go loop, at z = xs[i] its `denominator`. */
  function LagrangeProduct(xs: seq<int>, i: int, n: nat, z: int): int
    requires n <= |xs|
  {
    if n == 0 then 1
    else if n - 1 == i then LagrangeProduct(xs, i, n - 1, z)
    else LagrangeProduct(xs, i, n - 1, z) * (z - xs[n - 1])
  }

  /** The denominator of basis i, reduced modulo Prime as the Go code does
      before inverting it. */
  function Denominator(pts: seq<Point>, i: nat): (d: int)
    requires i < |pts|
    ensures 0 <= d < Prime
  {
    LagrangeProduct(Nodes(pts), i, |pts|, pts[i].x) % Prime
  }

  function Numerator(pts: seq<Point>, i: nat): int
    requires i < |pts|
  {
    LagrangeProduct(Nodes(pts), i, |pts|, 0)
  }

  /** `lagrangeBasis` for point i: numerator times the inverse of the
      denominator, modulo Prime; none when the denominator has no inverse. */
  function BasisValue(pts: seq<Point>, i: nat): (r: Option<int>)
    requires i < |pts|
    ensures r.Some? <==> Denominator(pts, i) != 0
    ensures r.Some? ==>
              && 0 <= r.value < Prime
              && exists inv :: IsInverse(Denominator(pts, i), inv, Prime) && r.value == (Numerator(pts, i) * inv) % Prime
  {
    ModInversePrime(Denominator(pts, i));
    ModOfRemainder(LagrangeProduct(Nodes(pts), i, |pts|, pts[i].x), Prime);
    match ModInverse(Denominator(pts, i), Prime)
    case None => None
    case Some(inv) => Some((Numerator(pts, i) * inv) % Prime)
  }

  /** The running `secret` of the Go loop after points 0 .. n - 1 (not yet
      reduced), or the failure of the first basis that has no inverse. */
  function InterpolationSum(pts: seq<Point>, n: nat): (r: Result<int>)
    requires n <= |pts|
    ensures r.Failure? ==> r.error == NoInverse
    ensures r.Success? <==> forall i :: 0 <= i < n ==> Denominator(pts, i) != 0
  {
    if n == 0 then Success(0)
    else
      match InterpolationSum(pts, n - 1)
      case Failure(e) => Failure(e)
      case Success(acc) =>
        match BasisValue(pts, n - 1)
        case None => Failure(NoInverse)
        case Some(b) => Success(acc + pts[n - 1].y * b)
  }

  /** `lagrangeInterpolation`: the value at 0 of the polynomial through the
      first `threshold` points. Fewer points than the threshold is an error;
      so is a negative threshold, for which the Go slice `points[:threshold]` fails. */
  function LagrangeInterpolation(s: Scheme, pts: seq<Point>): (r: Result<int>)
    ensures r == Failure(InsufficientShares) <==> |pts| < s.threshold
    ensures r.Success? ==> 0 <= r.value < Prime
    ensures 0 <= s.threshold <= |pts| ==>
              (r.Success? <==> forall i :: 0 <= i < s.threshold ==> Denominator(pts[..s.threshold], i) != 0)
  {
    if |pts| < s.threshold then Failure(InsufficientShares)
    else if s.threshold < 0 then Failure(ThresholdBelowOne)
    else
      match InterpolationSum(pts[..s.threshold], s.threshold)
      case Failure(e) => Failure(e)
      case Success(v) => Success(v % Prime)
  }

  /** Points after the first `threshold` do not change the result. */
  lemma ExtraPointsIgnored(s: Scheme, pts: seq<Point>, more: seq<Point>)
    requires 0 <= s.threshold <= |pts|
    ensures LagrangeInterpolation(s, pts + more) == LagrangeInterpolation(s, pts)
  {
    assert (pts + more)[..s.threshold] == pts[..s.threshold];
  }

  /** `ReconstructSecret`: interpolation over the first `threshold` shares. */
  function ReconstructSecret(s: Scheme, shares: seq<Point>): (r: Result<int>)
    ensures r == Failure(InsufficientShares) <==> |shares| < s.threshold
    ensures r.Success? ==> 0 <= r.value < Prime
  {
    LagrangeInterpolation(s, shares)
  }
}
