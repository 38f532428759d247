/** Integer powers and the facts about remainders that the RSA model needs.
    `Pow` is the naive repeated multiplication that every faster
    exponentiation in this project is proved against. Dafny's `%` is
    Euclidean: for a positive modulus it agrees with Python's `%`. */
module Arith {

  /** b raised to the x, by repeated multiplication. */
  function Pow(b: int, x: nat): int
    decreases x
  {
    if x == 0 then 1 else b * Pow(b, x - 1)
  }

  /** d divides x (d = 0 divides nothing, so that `Divides(d, x)` also means d is a usable modulus). */
  predicate Divides(d: int, x: int)
  {
    d != 0 && x % d == 0
  }

  /** Quotient and remainder are unique: the facts Dafny's `%` and `/` are pinned down by. */
  lemma DivModUnique(x: int, m: int, k: int, r: int)
    requires m > 0 && 0 <= r < m && x == m * k + r
    ensures x % m == r && x / m == k
  {
    var k', r' := x / m, x % m;
    assert x == m * k' + r';
    assert m * (k - k') == r' - r;
    if k - k' >= 1 {
      MulAtLeast(m, k - k');
    } else if k' - k >= 1 {
      MulAtLeast(m, k' - k);
    }
  }

  /** A helper of `DivModUnique`: a positive multiple of m is at least m. */
  lemma MulAtLeast(m: int, t: int)
    requires m > 0 && t >= 1
    ensures m * t >= m
  {
    assert m * t == m * (t - 1) + m;
  }

  /** Adding a multiple of the modulus does not change the remainder. */
  lemma ModAddMultiple(x: int, m: int, k: int)
    requires m > 0
    ensures (m * k + x) % m == x % m
  {
    DivModUnique(x, m, x / m, x % m);
    assert m * k + x == m * (k + x / m) + x % m;
    DivModUnique(m * k + x, m, k + x / m, x % m);
  }

  /** Two numbers have the same remainder exactly when the modulus divides their difference. */
  lemma SameRemainderIffDivides(x: int, y: int, m: int)
    requires m > 0
    ensures x % m == y % m <==> Divides(m, x - y)
  {
    DivModUnique(x, m, x / m, x % m);
    DivModUnique(y, m, y / m, y % m);
    if x % m == y % m {
      assert x - y == m * (x / m - y / m);
      DivModUnique(x - y, m, x / m - y / m, 0);
    } else {
      var t := (x - y) / m;
      DivModUnique(x - y, m, t, (x - y) % m);
      if (x - y) % m == 0 {
        assert x == m * (t + y / m) + y % m;
        DivModUnique(x, m, t + y / m, y % m);
        assert false;
      }
    }
  }

  /** A multiple of m is divisible by m. */
  lemma DividesMultiple(m: int, k: int)
    requires m != 0
    ensures Divides(m, m * k)
  {
    if m > 0 {
      DivModUnique(m * k, m, k, 0);
    } else {
      var k' := -k;
      assert m * k == (-m) * k';
      DivModUnique(m * k, -m, k', 0);
      ModNegative(m * k, m);
    }
  }

  /** The quotient witnesses divisibility. */
  lemma DividesWitness(m: int, x: int)
    requires Divides(m, x)
    ensures x == m * (x / m)
  {
  }

  /** Divisibility is closed under integer linear combinations. */
  lemma DividesLinear(m: int, x: int, y: int, s: int, t: int)
    requires Divides(m, x) && Divides(m, y)
    ensures Divides(m, x * s + y * t)
  {
    DividesWitness(m, x);
    DividesWitness(m, y);
    var a, b := x / m, y / m;
    calc {
      x * s + y * t;
      (m * a) * s + (m * b) * t;
      m * (a * s + b * t);
    }
    DividesMultiple(m, a * s + b * t);
  }

  /** Divisibility is transitive. */
  lemma DividesTransitive(a: int, b: int, c: int)
    requires Divides(a, b) && Divides(b, c)
    ensures Divides(a, c)
  {
    DividesWitness(a, b);
    DividesWitness(b, c);
    var s, t := b / a, c / b;
    assert c == a * (s * t);
    DividesMultiple(a, s * t);
  }

  /** The remainder modulo a negative number is the remainder modulo its absolute value. */
  lemma ModNegative(x: int, m: int)
    requires m < 0
    ensures x % m == x % (-m)
  {
    assert x == (-m) * (-(x / m)) + x % m;
    DivModUnique(x, -m, -(x / m), x % m);
  }

  /** A common divisor of m and of b mod m divides b. */
  lemma DividesThroughRemainder(g: int, b: int, m: int)
    requires m > 0 && Divides(g, m) && Divides(g, b % m)
    ensures Divides(g, b)
  {
    assert b == m * (b / m) + (b % m) * 1;
    DividesLinear(g, m, b % m, b / m, 1);
  }

  /** The remainder of a product depends only on the remainders of its factors. */
  lemma MulMod(a: int, b: int, m: int)
    requires m > 0
    ensures (a * b) % m == ((a % m) * (b % m)) % m
  {
    var qa, ra := a / m, a % m;
    var qb, rb := b / m, b % m;
    assert a == m * qa + ra;
    assert b == m * qb + rb;
    calc {
      a * b;
      (m * qa + ra) * (m * qb + rb);
      m * (qa * m * qb + qa * rb + ra * qb) + ra * rb;
    }
    ModAddMultiple(ra * rb, m, qa * m * qb + qa * rb + ra * qb);
  }

  /** Powers add their exponents. */
  lemma {:induction false} PowAdd(b: int, x: nat, y: nat)
    ensures Pow(b, x + y) == Pow(b, x) * Pow(b, y)
    decreases x
  {
    if x > 0 {
      PowAdd(b, x - 1, y);
      calc {
        Pow(b, x + y);
        b * Pow(b, x - 1 + y);
        b * (Pow(b, x - 1) * Pow(b, y));
        (b * Pow(b, x - 1)) * Pow(b, y);
      }
    }
  }

  /** A power of a power multiplies the exponents. */
  lemma {:induction false} PowMul(b: int, x: nat, y: nat)
    ensures Pow(b, x * y) == Pow(Pow(b, x), y)
    decreases y
  {
    if y > 0 {
      PowMul(b, x, y - 1);
      assert x * y == x + x * (y - 1);
      PowAdd(b, x, x * (y - 1));
    }
  }

  /** A power of a product is the product of the powers. */
  lemma {:induction false} PowOfProduct(a: int, b: int, x: nat)
    ensures Pow(a * b, x) == Pow(a, x) * Pow(b, x)
    decreases x
  {
    if x > 0 {
      PowOfProduct(a, b, x - 1);
      calc {
        Pow(a * b, x);
        (a * b) * (Pow(a, x - 1) * Pow(b, x - 1));
        (a * Pow(a, x - 1)) * (b * Pow(b, x - 1));
      }
    }
  }

  /** Every power of one is one. */
  lemma {:induction false} PowOne(x: nat)
    ensures Pow(1, x) == 1
    decreases x
  {
    if x > 0 {
      PowOne(x - 1);
    }
  }

  /** Powers of a non-negative base are non-negative. */
  lemma {:induction false} PowNonNegative(b: int, x: nat)
    requires b >= 0
    ensures Pow(b, x) >= 0
    decreases x
  {
    if x > 0 {
      PowNonNegative(b, x - 1);
    }
  }

  /** The remainder of a power depends only on the remainder of its base. */
  lemma {:induction false} PowMod(b: int, x: nat, m: int)
    requires m > 0
    ensures Pow(b, x) % m == Pow(b % m, x) % m
    decreases x
  {
    if x > 0 {
      var r := b % m;
      var t, u := Pow(b, x - 1), Pow(r, x - 1);
      PowMod(b, x - 1, m);
      assert t % m == u % m;
      MulMod(b, t, m);
      MulMod(r, u, m);
      DivModUnique(r, m, 0, r);
      assert (b * t) % m == (r * (t % m)) % m;
      assert (r * u) % m == (r * (u % m)) % m;
    }
  }
}
