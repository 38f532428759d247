/** Fermat's little theorem, by the binomial theorem: for a prime p,
    (a + 1)^p and a^p + 1 leave the same remainder, because p divides every
    binomial coefficient C(p, k) with 0 < k < p. */
module Fermat {
  import opened Arith
  import opened Divisibility

  /** The binomial coefficient C(n, k), by Pascal's rule. */
  function Binom(n: nat, k: nat): nat
    decreases n
  {
    if k == 0 then 1
    else if n == 0 then 0
    else Binom(n - 1, k - 1) + Binom(n - 1, k)
  }

  /** No way to choose more than n of n things. */
  lemma {:induction false} BinomAbove(n: nat, k: nat)
    requires k > n
    ensures Binom(n, k) == 0
    decreases n
  {
    if n > 0 {
      BinomAbove(n - 1, k - 1);
      BinomAbove(n - 1, k);
    }
  }

  /** C(n, 1) == n. */
  lemma {:induction false} BinomOne(n: nat)
    ensures Binom(n, 1) == n
    decreases n
  {
    if n > 0 {
      BinomOne(n - 1);
    }
  }

  /** C(n, n) == 1. */
  lemma {:induction false} BinomDiagonal(n: nat)
    ensures Binom(n, n) == 1
    decreases n
  {
    if n > 0 {
      BinomDiagonal(n - 1);
      BinomAbove(n - 1, n);
    }
  }

  /** The absorption identity k * C(n, k) == n * C(n - 1, k - 1). */
  lemma {:induction false} Absorption(n: nat, k: nat)
    requires 1 <= k <= n
    ensures k * Binom(n, k) == n * Binom(n - 1, k - 1)
    decreases n
  {
    if k == 1 {
      BinomOne(n);
    } else if k == n {
      BinomDiagonal(n);
      BinomDiagonal(n - 1);
    } else {
      // 2 <= k <= n - 1, so n >= 3
      Absorption(n - 1, k - 1);
      Absorption(n - 1, k);
      var a, b, c := Binom(n - 1, k - 1), Binom(n - 1, k), Binom(n - 2, k - 2);
      var c' := Binom(n - 2, k - 1);
      assert Binom(n, k) == a + b;
      assert (k - 1) * a == (n - 1) * c;
      assert k * b == (n - 1) * c';
      assert a == c + c';
      AbsorptionStep(n, k, a, b, c, c');
    }
  }

  /** The ring arithmetic behind one step of `Absorption`. */
  lemma AbsorptionStep(n: int, k: int, a: int, b: int, c: int, c': int)
    requires (k - 1) * a == (n - 1) * c && k * b == (n - 1) * c' && a == c + c'
    ensures k * (a + b) == n * a
  {
    assert k * (a + b) == k * a + k * b;
    assert k * a == (k - 1) * a + a;
    assert (n - 1) * c + (n - 1) * c' == (n - 1) * (c + c');
    assert (n - 1) * a + a == n * a;
  }

  /** The ring arithmetic behind one step of `BinomSumPascal`. */
  lemma PascalStep(a: int, s1: int, s2: int, x: int, y: int, pk1: int, pk: int)
    requires pk == a * pk1
    ensures a * s1 + s2 + (x + y) * pk == a * (s1 + x * pk1) + (s2 + y * pk)
  {
    assert (x + y) * pk == x * pk + y * pk;
    assert x * pk == a * (x * pk1);
    assert a * s1 + a * (x * pk1) == a * (s1 + x * pk1);
  }

  /** A prime p divides C(p, k) for every 0 < k < p. */
  lemma PrimeDividesBinom(p: nat, k: nat)
    requires IsPrime(p) && 0 < k < p
    ensures Divides(p, Binom(p, k))
  {
    Absorption(p, k);
    DividesMultiple(p, Binom(p - 1, k - 1));
    assert Divides(p, k * Binom(p, k));
    EuclidLemma(p, k, Binom(p, k));
    if Divides(p, k) {
      DivisorAtMost(p, k);
      assert false;
    }
  }

  /** The first j terms of the binomial expansion of (a + 1)^n: the sum of C(n, k) * a^k for k < j. */
  function BinomSum(n: nat, a: int, j: nat): int
    decreases j
  {
    if j == 0 then 0 else BinomSum(n, a, j - 1) + Binom(n, j - 1) * Pow(a, j - 1)
  }

  /** Pascal's rule summed term by term. */
  lemma {:induction false} BinomSumPascal(n: nat, a: int, j: nat)
    requires j >= 1
    ensures BinomSum(n + 1, a, j) == a * BinomSum(n, a, j - 1) + BinomSum(n, a, j)
    decreases j
  {
    if j > 1 {
      BinomSumPascal(n, a, j - 1);
      var k := j - 1;
      assert Binom(n + 1, k) == Binom(n, k - 1) + Binom(n, k);
      assert Pow(a, k) == a * Pow(a, k - 1);
      PascalStep(a, BinomSum(n, a, k - 1), BinomSum(n, a, k), Binom(n, k - 1), Binom(n, k),
                 Pow(a, k - 1), Pow(a, k));
    }
  }

  /** The binomial theorem for (a + 1)^n. */
  lemma {:induction false} BinomialTheorem(n: nat, a: int)
    ensures Pow(a + 1, n) == BinomSum(n, a, n + 1)
    decreases n
  {
    if n > 0 {
      var m := n - 1;
      BinomialTheorem(m, a);
      BinomSumPascal(m, a, n + 1);
      BinomAbove(m, n);
      assert BinomSum(m, a, n + 1) == BinomSum(m, a, n);
      calc {
        BinomSum(n, a, n + 1);
        a * BinomSum(m, a, n) + BinomSum(m, a, n);
        (a + 1) * Pow(a + 1, m);
      }
    }
  }

  /** For a prime p, every partial sum of the expansion that stops before the last term is 1 plus a multiple of p. */
  lemma {:induction false} InnerTermsVanish(p: nat, a: int, j: nat)
    requires IsPrime(p) && 1 <= j <= p
    ensures Divides(p, BinomSum(p, a, j) - 1)
    decreases j
  {
    if j == 1 {
      DividesMultiple(p, 0);
    } else {
      InnerTermsVanish(p, a, j - 1);
      PrimeDividesBinom(p, j - 1);
      var c := Binom(p, j - 1);
      assert BinomSum(p, a, j) - 1 == (BinomSum(p, a, j - 1) - 1) * 1 + c * Pow(a, j - 1);
      DividesLinear(p, BinomSum(p, a, j - 1) - 1, c, 1, Pow(a, j - 1));
    }
  }

  /** The "freshman's dream" modulo a prime: p divides (a + 1)^p - a^p - 1. */
  lemma FreshmansDream(p: nat, a: int)
    requires IsPrime(p)
    ensures Divides(p, Pow(a + 1, p) - Pow(a, p) - 1)
  {
    BinomialTheorem(p, a);
    BinomDiagonal(p);
    InnerTermsVanish(p, a, p);
    assert BinomSum(p, a, p + 1) == BinomSum(p, a, p) + Pow(a, p);
  }

  /** Fermat's little theorem: p divides a^p - a for every prime p and every a >= 0. */
  lemma {:induction false} LittleFermat(p: nat, a: nat)
    requires IsPrime(p)
    ensures Divides(p, Pow(a, p) - a)
    decreases a
  {
    if a == 0 {
      assert Pow(0, p) == 0;
      DividesMultiple(p, 0);
    } else {
      LittleFermat(p, a - 1);
      FreshmansDream(p, a - 1);
      var x, y := Pow(a - 1, p) - (a - 1), Pow(a, p) - Pow(a - 1, p) - 1;
      DividesLinear(p, x, y, 1, 1);
      assert x * 1 + y * 1 == Pow(a, p) - a;
    }
  }

  /** Fermat's little theorem, second form: a^(p-1) leaves remainder 1 modulo p when p does not divide a. */
  lemma FermatUnit(p: nat, a: nat)
    requires IsPrime(p) && !Divides(p, a)
    ensures Pow(a, p - 1) % p == 1
  {
    LittleFermat(p, a);
    assert Pow(a, p) - a == a * (Pow(a, p - 1) - 1);
    EuclidLemma(p, a, Pow(a, p - 1) - 1);
    SameRemainderIffDivides(Pow(a, p - 1), 1, p);
    DivModUnique(1, p, 0, 1);
  }
}
