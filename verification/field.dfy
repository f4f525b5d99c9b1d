/** Modular inverses, as `modInverse` computes them with `big.Int.ModInverse`. */
module Field {
  import opened Outcome
  import opened Arith
  import opened Primality

  /** b is a multiplicative inverse of a modulo m. */
  predicate IsInverse(a: int, b: int, m: int)
    requires m > 0
  {
    (a * b) % m == 1 % m
  }

  /** `modInverse(a, m)`: a negative a is first reduced modulo m, then the
      extended Euclidean algorithm runs on (a, m); `big.Int.ModInverse` gives
      no inverse (the Go function panics) unless their gcd is 1. */
  function ModInverse(a: int, m: int): (r: Option<int>)
    requires m > 0
    ensures r.Some? ==> 0 <= r.value < m && IsInverse(a, r.value, m)
  {
    var a' := if a < 0 then a % m else a;
    var e := ExtGcd(a', m);
    if e.0 == 1 then
      BezoutInverse(a', e.1, e.2, m);
      SameResidueProduct(a, a', e.1 % m, m);
      Some(e.1 % m)
    else
      None
  }

  /** Numbers congruent modulo m have congruent products. */
  lemma SameResidueProduct(a: int, a': int, b: int, m: int)
    requires m > 0 && a' == (if a < 0 then a % m else a)
    ensures (a * b) % m == (a' * b) % m
  {
    if a < 0 {
      MulModLeft(a, b, m);
    }
  }

  /** When `modInverse` finds no inverse, none exists. */
  lemma ModInverseComplete(a: int, m: int)
    requires m > 0
    ensures ModInverse(a, m).None? <==> forall b :: !IsInverse(a, b, m)
  {
    var a' := if a < 0 then a % m else a;
    var e := ExtGcd(a', m);
    if e.0 != 1 {
      var g := e.0;
      assert g >= 2;
      forall b
        ensures !IsInverse(a, b, m)
      {
        NoInverseWithCommonFactor(a, a', b, m, g);
      }
    } else {
      assert IsInverse(a, ModInverse(a, m).value, m);
    }
  }

  /** A common factor g >= 2 of a and m rules out an inverse of a modulo m. */
  lemma NoInverseWithCommonFactor(a: int, a': int, b: int, m: int, g: int)
    requires m > 0 && a' == (if a < 0 then a % m else a)
    requires g >= 2 && a' % g == 0 && m % g == 0
    ensures !IsInverse(a, b, m)
  {
    SameResidueProduct(a, a', b, m);
    DivisorAtMost(g, m);
    var q := (a' * b) / m;
    var r := (a' * b) % m;
    assert b * a' + (-q) * m == r;
    DividesCombination(g, a', m, b, -q);
    DivModUnique(1, g, 0, 1);
    DivModUnique(1, m, 0, 1);
  }

  /** Modulo Prime exactly the residues other than 0 have an inverse. */
  lemma ModInversePrime(a: int)
    ensures ModInverse(a, Prime).Some? <==> a % Prime != 0
  {
    ModInverseComplete(a, Prime);
    if a % Prime != 0 {
      var b := InverseExists(a);
      assert IsInverse(a, b, Prime);
    } else if ModInverse(a, Prime).Some? {
      var b := ModInverse(a, Prime).value;
      MulModLeft(a, b, Prime);
    }
  }
}
