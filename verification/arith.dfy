/** Integer facts about Euclidean division and the extended Euclidean algorithm.
    Dafny's `/` and `%` are Euclidean, which is also what `big.Int.Mod` computes. */
module Arith {

  /** The quotient and remainder of division by a positive modulus are unique. */
  lemma DivModUnique(n: int, m: int, q: int, r: int)
    requires m > 0 && 0 <= r < m && n == m * q + r
    ensures n % m == r && n / m == q
  {
    var q', r' := n / m, n % m;
    assert m * (q - q') == r' - r;
    MulAtLeast(m, q - q');
    MulAtLeast(m, q' - q);
    assert m * (q' - q) == -(m * (q - q'));
  }

  /** A positive factor times a positive number is at least that factor. */
  lemma MulAtLeast(m: int, d: int)
    requires m > 0
    ensures d >= 1 ==> m * d >= m
  {
    if d >= 1 {
      assert m * d == m * (d - 1) + m;
    }
  }

  lemma MulNonnegative(a: int, b: int)
    requires a >= 0 && b >= 0
    ensures a * b >= 0
  {
    if a > 0 {
      MulAtLeast(a, b);
    }
  }

  /** Adding a multiple of the modulus does not change the remainder. */
  lemma ModAddMultiple(x: int, k: int, m: int)
    requires m > 0
    ensures (x + m * k) % m == x % m
  {
    assert x + m * k == m * (x / m + k) + x % m;
    DivModUnique(x + m * k, m, x / m + k, x % m);
  }

  lemma MultipleMod(m: int, k: int)
    requires m > 0
    ensures (m * k) % m == 0
  {
    ModAddMultiple(0, k, m);
  }

  lemma ModOfRemainder(x: int, m: int)
    requires m > 0
    ensures (x % m) % m == x % m
  {
    DivModUnique(x % m, m, 0, x % m);
  }

  lemma AddMod(a: int, b: int, m: int)
    requires m > 0
    ensures (a + b) % m == (a % m + b % m) % m
  {
    assert a + b == (a % m + b % m) + m * (a / m + b / m);
    ModAddMultiple(a % m + b % m, a / m + b / m, m);
  }

  lemma SubMod(a: int, b: int, m: int)
    requires m > 0
    ensures (a - b) % m == (a % m - b % m) % m
  {
    assert a - b == (a % m - b % m) + m * (a / m - b / m);
    ModAddMultiple(a % m - b % m, a / m - b / m, m);
  }

  /** Two numbers have the same remainder exactly when their difference is a multiple. */
  lemma SameRemainder(a: int, b: int, m: int)
    requires m > 0
    ensures (a - b) % m == 0 <==> a % m == b % m
  {
    SubMod(a, b, m);
    var d := a % m - b % m;
    if d >= 0 {
      DivModUnique(d, m, 0, d);
    } else {
      DivModUnique(d, m, -1, d + m);
    }
  }

  /** Reducing the right factor first does not change a product's remainder. */
  lemma MulModRight(a: int, b: int, m: int)
    requires m > 0
    ensures (a * b) % m == (a * (b % m)) % m
  {
    var q := b / m;
    assert b == m * q + b % m;
    assert a * b == a * (b % m) + m * (a * q) by {
      assert a * b == a * (m * q + b % m);
    }
    ModAddMultiple(a * (b % m), a * q, m);
  }

  lemma MulModLeft(a: int, b: int, m: int)
    requires m > 0
    ensures (a * b) % m == ((a % m) * b) % m
  {
    MulModRight(b, a, m);
    MulModRight(b, a % m, m);
    assert b * a == a * b;
    assert b * (a % m) == (a % m) * b;
  }

  lemma MulMod(a: int, b: int, m: int)
    requires m > 0
    ensures (a * b) % m == ((a % m) * (b % m)) % m
  {
    MulModLeft(a, b, m);
    MulModRight(a % m, b, m);
  }

  /** Multiplying into a reduced product: b * (x * y mod m) and (b * x mod m) * y agree modulo m. */
  lemma MulModAssoc(b: int, x: int, y: int, m: int)
    requires m > 0
    ensures (b * ((x * y) % m)) % m == (((b * x) % m) * y) % m
  {
    MulModRight(b, x * y, m);
    MulModLeft(b * x, y, m);
    assert b * (x * y) == (b * x) * y;
  }

  /** A linear combination of two multiples of `d` is a multiple of `d`. */
  lemma DividesCombination(d: int, a: int, b: int, x: int, y: int)
    requires d > 0 && a % d == 0 && b % d == 0
    ensures (x * a + y * b) % d == 0
  {
    var qa, qb := a / d, b / d;
    assert a == d * qa;
    assert b == d * qb;
    assert x * a + y * b == d * (x * qa + y * qb) by {
      assert x * a == d * (x * qa);
      assert y * b == d * (y * qb);
    }
    MultipleMod(d, x * qa + y * qb);
  }

  /** A positive divisor of a positive number is at most that number. */
  lemma DivisorAtMost(d: int, n: int)
    requires d > 0 && n > 0 && n % d == 0
    ensures d <= n
  {
    var q := n / d;
    assert n == d * q;
    MulAtLeast(d, q);
  }

  /** The cofactor of a proper positive divisor e of n is at least 2. */
  lemma Cofactor(n: int, e: int) returns (k: int)
    requires 0 < e < n && n % e == 0
    ensures k * e == n && k >= 2
  {
    k := n / e;
    assert n == e * k;
    MulAtLeast(e, k);
    MulAtLeast(e, 1 - k);
    assert e * (1 - k) == e - e * k;
  }

  /** The two factors of a factorisation of a positive number. */
  lemma DivisorPair(n: int, d: int) returns (h: int)
    requires n > 0 && d > 0 && n % d == 0
    ensures n == d * h && h > 0 && n % h == 0
  {
    h := n / d;
    assert n == d * h;
    MulAtLeast(d, 1 - h);
    assert d * (1 - h) == d - d * h;
    assert n == h * d;
    MultipleMod(h, d);
  }

  /** The smaller factor of n = d * h is at most the square root of n. */
  lemma SmallerFactorSquare(n: int, d: int, h: int)
    requires d > 0 && h > 0 && n == d * h
    ensures d <= h ==> d * d <= n
    ensures h <= d ==> h * h <= n
  {
    assert d * h - d * d == d * (h - d);
    assert d * h - h * h == h * (d - h);
    MulAtLeast(d, h - d);
    MulAtLeast(h, d - h);
  }

  lemma MulCancel(q: int, a: int, b: int)
    requires q > 0 && q * a == q * b
    ensures a == b
  {
    assert q * (a - b) == 0;
    MulAtLeast(q, a - b);
    MulAtLeast(q, b - a);
    assert q * (b - a) == -(q * (a - b));
  }

  /** Cancellation: when s*k + t*q = 1 and k*e = q*rest, q divides e and k
      times the quotient is rest. */
  lemma CoprimeCancel(k: int, e: int, q: int, rest: int, s: int, t: int)
    requires q > 0 && s * k + t * q == 1 && k * e == q * rest
    ensures e == q * (s * rest + t * e) && k * (s * rest + t * e) == rest
  {
    var e' := s * rest + t * e;
    calc {
      e;
      e * (s * k + t * q);
      s * (k * e) + q * (t * e);
      s * (q * rest) + q * (t * e);
      q * e';
    }
    assert q * (k * e') == q * rest by {
      assert q * (k * e') == k * (q * e');
    }
    MulCancel(q, k * e', rest);
  }

  /** If k = q*j and k*e = n then n / q = e*j exactly. */
  lemma QuotientOfCofactor(n: int, k: int, e: int, q: int) returns (j: int)
    requires q > 0 && k * e == n && k % q == 0
    ensures n % q == 0 && n / q == e * j
  {
    j := k / q;
    assert k == q * j;
    assert n == q * (e * j) by {
      assert n == (q * j) * e;
    }
    DivModUnique(n, q, e * j, 0);
  }

  /** The extended Euclidean algorithm: (g, s, t) with g = s*a + t*b and g the
      greatest common divisor of a and b. */
  /** The ring identity behind one Euclidean step. */
  lemma BezoutRegroup(a: int, b: int, q: int, m: int, g: int, s: int, t: int)
    requires a == b * q + m && g == s * b + t * m
    ensures g == t * a + (s - q * t) * b
  {
    assert t * m == t * a - t * (b * q);
    assert t * (b * q) == (q * t) * b;
    assert (s - q * t) * b == s * b - (q * t) * b;
  }

  /** One step of the extended Euclidean algorithm: a combination for
      (b, a % b) gives one for (a, b), and a common divisor carries over. */
  lemma BezoutStep(a: int, b: int, g: int, s: int, t: int)
    requires b > 0 && g == s * b + t * (a % b)
    requires g > 0 ==> b % g == 0 && (a % b) % g == 0
    ensures g == t * a + (s - (a / b) * t) * b
    ensures g > 0 ==> a % g == 0
  {
    BezoutRegroup(a, b, a / b, a % b, g, s, t);
    if g > 0 {
      DividesCombination(g, b, a % b, a / b, 1);
    }
  }

  function ExtGcd(a: nat, b: nat): (r: (int, int, int))
    decreases b
    ensures r.0 == r.1 * a + r.2 * b
    ensures r.0 >= 0
    ensures a > 0 || b > 0 ==> r.0 > 0
    ensures r.0 > 0 ==> a % r.0 == 0 && b % r.0 == 0
  {
    if b == 0 then
      (a, 1, 0)
    else
      var rest := ExtGcd(b, a % b);
      var g, s, t := rest.0, rest.1, rest.2;
      BezoutStep(a, b, g, s, t);
      (g, t, s - (a / b) * t)
  }

  /** Every common divisor of a and b divides their gcd. */
  lemma CommonDivisorDividesGcd(d: int, a: nat, b: nat)
    requires d > 0 && a % d == 0 && b % d == 0
    ensures ExtGcd(a, b).0 % d == 0
  {
    var r := ExtGcd(a, b);
    DividesCombination(d, a, b, r.1, r.2);
  }

  /** Bezout coefficients with value 1 give a modular inverse. */
  lemma BezoutInverse(a: int, s: int, t: int, m: int)
    requires m > 0 && s * a + t * m == 1
    ensures (a * (s % m)) % m == 1 % m
  {
    MulModRight(a, s, m);
    assert a * s == 1 + m * (-t);
    ModAddMultiple(1, -t, m);
  }
}
