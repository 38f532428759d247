/** Greatest common divisors, Bezout coefficients and primes: what decides
    whether a modular inverse exists and what makes RSA decryption exact. */
module Divisibility {
  import opened Arith

  /** Euclid's algorithm on non-negative integers. */
  function Gcd(a: nat, b: nat): nat
    decreases b
  {
    if b == 0 then a else Gcd(b, a % b)
  }

  /** Gcd(a, b) is a common divisor of a and b, and it is positive unless both are zero. */
  lemma {:induction false} GcdDivides(a: nat, b: nat)
    requires a > 0 || b > 0
    ensures Gcd(a, b) > 0 && Divides(Gcd(a, b), a) && Divides(Gcd(a, b), b)
    decreases b
  {
    if b == 0 {
      DivModUnique(a, a, 1, 0);
      DivModUnique(0, a, 0, 0);
    } else {
      GcdDivides(b, a % b);
      var g := Gcd(b, a % b);
      assert a == b * (a / b) + a % b;
      DividesLinear(g, b, a % b, a / b, 1);
    }
  }

  /** Bezout coefficients of a and b: a * x + b * y == g. */
  datatype Bezout = Bezout(g: nat, x: int, y: int)

  /** The extended Euclidean algorithm: the gcd together with its Bezout coefficients. */
  function ExtGcd(a: nat, b: nat): (r: Bezout)
    ensures r.g == Gcd(a, b)
    ensures a * r.x + b * r.y == r.g
    decreases b
  {
    if b == 0 then Bezout(a, 1, 0)
    else
      var r' := ExtGcd(b, a % b);
      BezoutStep(a, b, a / b, a % b, r'.x, r'.y, r'.g);
      Bezout(r'.g, r'.y, r'.x - (a / b) * r'.y)
  }

  /** The ring arithmetic behind one step of `ExtGcd`. */
  lemma BezoutStep(a: int, b: int, q: int, r: int, x: int, y: int, g: int)
    requires a == b * q + r && b * x + r * y == g
    ensures a * y + b * (x - q * y) == g
  {
    assert a * y == b * q * y + r * y;
    assert b * (x - q * y) == b * x - b * q * y;
  }

  /** Every common divisor of a and b divides Gcd(a, b): with `GcdDivides`, Gcd is the greatest one. */
  lemma CommonDivisorDividesGcd(a: nat, b: nat, c: int)
    requires Divides(c, a) && Divides(c, b)
    ensures Divides(c, Gcd(a, b))
  {
    var r := ExtGcd(a, b);
    DividesLinear(c, a, b, r.x, r.y);
  }

  /** A positive divisor of a positive number is no larger than it. */
  lemma DivisorAtMost(d: int, x: int)
    requires d > 0 && x > 0 && Divides(d, x)
    ensures d <= x
  {
    DividesWitness(d, x);
    var k := x / d;
    if k >= 1 {
      MulAtLeast(d, k);
    }
  }

  /** p is prime: at least 2, and no number strictly between 1 and p divides it. */
  predicate IsPrime(p: int)
  {
    p >= 2 && forall k :: 1 < k < p ==> !Divides(k, p)
  }

  /** The gcd of a prime p with a number it does not divide is 1. */
  lemma {:induction false} PrimeCoprime(p: int, a: int)
    requires IsPrime(p) && !Divides(p, a)
    ensures Gcd(a % p, p) == 1
  {
    var r := a % p;
    GcdDivides(r, p);
    var g := Gcd(r, p);
    DivisorAtMost(g, p);
    if g != 1 {
      assert g == p;
      if r > 0 {
        DivisorAtMost(g, r);
      }
      assert false;
    }
  }

  /** Euclid's lemma: a prime that divides a product divides one of its factors. */
  lemma {:induction false} EuclidLemma(p: int, a: int, b: int)
    requires IsPrime(p) && Divides(p, a * b)
    ensures Divides(p, a) || Divides(p, b)
  {
    if !Divides(p, a) {
      PrimeCoprime(p, a);
      var ra := a % p;
      var r := ExtGcd(ra, p);
      // ra * b differs from a * b by a multiple of p
      ShiftProduct(a, b, p, a / p, ra);
      DividesMultiple(p, 1);
      DividesLinear(p, a * b, p, 1, -((a / p) * b));
      // b == (ra * b) * x + p * (b * y) by Bezout
      ScaleIdentity(ra, p, r.x, r.y, b);
      DividesLinear(p, ra * b, p, r.x, b * r.y);
    }
  }

  /** The ring arithmetic behind `EuclidLemma`: replacing a by its remainder changes a * b by a multiple of p. */
  lemma ShiftProduct(a: int, b: int, p: int, q: int, r: int)
    requires a == p * q + r
    ensures r * b == (a * b) * 1 + p * (-(q * b))
  {
    assert a * b == p * q * b + r * b;
  }

  /** The ring arithmetic behind `EuclidLemma`: a Bezout identity u * x + v * y == 1, scaled by b. */
  lemma ScaleIdentity(u: int, v: int, x: int, y: int, b: int)
    requires u * x + v * y == 1
    ensures b == (u * b) * x + v * (b * y)
  {
    assert b == b * (u * x + v * y);
    assert b * (u * x + v * y) == (u * b) * x + v * (b * y);
  }

  /** Two distinct primes that both divide z: their product divides z. */
  lemma {:induction false} DistinctPrimesDivide(p: int, q: int, z: int)
    requires IsPrime(p) && IsPrime(q) && p != q
    requires Divides(p, z) && Divides(q, z)
    ensures Divides(p * q, z)
  {
    DividesWitness(p, z);
    var t := z / p;
    assert z == p * t;
    EuclidLemma(q, p, t);
    if Divides(q, p) {
      DivisorAtMost(q, p);
      assert false;
    }
    DividesWitness(q, t);
    assert z == (p * q) * (t / q);
    DividesMultiple(p * q, t / q);
  }

  /** Trial division: no d with 1 < d < k divides p. */
  function NoDivisorBelow(p: int, k: int): bool
    decreases k
  {
    k <= 2 || (!Divides(k - 1, p) && NoDivisorBelow(p, k - 1))
  }

  /** Trial division up to p decides primality, so a concrete prime can be checked by evaluation. */
  lemma {:induction false} TrialDivision(p: int, k: int)
    requires NoDivisorBelow(p, k)
    ensures forall d :: 1 < d < k ==> !Divides(d, p)
    decreases k
  {
    if k > 2 {
      TrialDivision(p, k - 1);
    }
  }
}
