/** Python's modular arithmetic builtins as the RSA code uses them: the `%`
    operator on integers and the three-argument `pow(base, exp, mod)`,
    including the negative-exponent form `pow(e, -1, phi)` that yields a
    modular inverse. Square-and-multiply (`ModPow`) and the extended Euclidean
    algorithm (`ModInverse`) compute them; both are proved against the naive
    definitions in `Arith` and `Divisibility`. */
module PyBuiltins {
  import opened Arith
  import opened Divisibility

  datatype Option<T> = None | Some(value: T)

  /** The two `ValueError`s of three-argument `pow`: a zero modulus, and a
      negative exponent whose base has no inverse for the modulus. */
  datatype PowError = ZeroModulus | NotInvertible

  datatype Result<T> = Ok(value: T) | Err(error: PowError)

  function Abs(x: int): nat
  {
    if x < 0 then -x else x
  }

  /** v is a remainder as Python returns one: in [0, mod) for a positive
      modulus, in (mod, 0] for a negative one. */
  predicate Reduced(v: int, mod: int)
  {
    (mod > 0 && 0 <= v < mod) || (mod < 0 && mod < v <= 0)
  }

  /** Python's `x % mod`: the remainder takes the sign of the modulus. */
  function PyMod(x: int, mod: int): (r: int)
    requires mod != 0
    ensures Reduced(r, mod)
    ensures Divides(mod, x - r)
  {
    var m := Abs(mod);
    var v := x % m;
    PyModShift(x, mod, v);
    if mod < 0 && v != 0 then v + mod else v
  }

  /** Both candidates for Python's remainder differ from x by a multiple of the modulus. */
  lemma PyModShift(x: int, mod: int, v: int)
    requires mod != 0 && v == x % Abs(mod)
    ensures Divides(mod, x - v) && Divides(mod, x - (v + mod))
  {
    var m := Abs(mod);
    SameRemainderIffDivides(x, v, m);
    DivModUnique(v, m, 0, v);
    DividesWitness(m, x - v);
    var k := (x - v) / m;
    assert x - v == mod * (if mod < 0 then -k else k);
    DividesMultiple(mod, if mod < 0 then -k else k);
    assert x - (v + mod) == mod * ((if mod < 0 then -k else k) - 1);
    DividesMultiple(mod, (if mod < 0 then -k else k) - 1);
  }

  /** A multiple of a negative modulus is a multiple of its absolute value. */
  lemma AbsDivides(mod: int, x: int)
    requires Divides(mod, x)
    ensures Divides(Abs(mod), x)
  {
    if mod < 0 {
      ModNegative(x, mod);
    }
  }

  /** Python's `x % mod` depends only on the remainder of x modulo |mod|. */
  lemma PyModCongruent(x: int, y: int, mod: int)
    requires mod != 0 && x % Abs(mod) == y % Abs(mod)
    ensures PyMod(x, mod) == PyMod(y, mod)
  {
  }

  /** Square-and-multiply modular exponentiation: each intermediate value is
      reduced modulo m, and the result is b^x mod m as repeated
      multiplication defines it. */
  function ModPow(b: int, x: nat, m: nat): (r: nat)
    requires m > 0
    ensures r == Pow(b, x) % m
    decreases x
  {
    if x == 0 then 1 % m
    else if x % 2 == 0 then
      var h := ModPow(b, x / 2, m);
      PowAdd(b, x / 2, x / 2);
      MulMod(Pow(b, x / 2), Pow(b, x / 2), m);
      (h * h) % m
    else
      MulMod(b, Pow(b, x - 1), m);
      ((b % m) * ModPow(b, x - 1, m)) % m
  }

  /** The inverse of b modulo m, in [0, m), by the extended Euclidean
      algorithm; None exactly when b and m are not coprime. */
  function ModInverse(b: int, m: nat): (r: Option<nat>)
    requires m > 0
    ensures r.Some? <==> Gcd(b % m, m) == 1
    ensures r.Some? ==> r.value < m && (b * r.value) % m == 1 % m
  {
    var z := ExtGcd(b % m, m);
    if z.g == 1 then
      InverseFromBezout(b, m, z.x, z.y);
      Some(z.x % m)
    else
      None
  }

  /** A Bezout identity (b mod m) * x + m * y == 1 makes x mod m an inverse of b. */
  lemma InverseFromBezout(b: int, m: nat, x: int, y: int)
    requires m > 0 && (b % m) * x + m * y == 1
    ensures (b * (x % m)) % m == 1 % m
  {
    var r := b % m;
    MulMod(b, x % m, m);
    DivModUnique(x % m, m, 0, x % m);
    DivModUnique(r, m, 0, r);
    MulMod(r, x, m);
    assert (b * (x % m)) % m == (r * x) % m;
    assert r * x == m * (-y) + 1;
    ModAddMultiple(1, m, -y);
  }

  /** When b and m are not coprime no d is an inverse of b modulo m, so
      `ModInverse` returning None loses no solution. */
  lemma NoInverseUnlessCoprime(b: int, m: nat, d: int)
    requires m > 0 && Gcd(b % m, m) != 1
    ensures (b * d) % m != 1 % m
  {
    if (b * d) % m == 1 % m {
      var g := Gcd(b % m, m);
      GcdDivides(b % m, m);
      DividesThroughRemainder(g, b, m);
      // m, hence g, divides b * d - 1, and so g divides 1 == b * d - (b * d - 1)
      SameRemainderIffDivides(b * d, 1, m);
      DividesTransitive(g, m, b * d - 1);
      DividesLinear(g, b, b * d - 1, d, -1);
      DivisorAtMost(g, 1);
      assert false;
    }
  }

  /** An inverse modulo m is unique in [0, m): any way of recomputing it yields the same number. */
  lemma InverseUnique(b: int, m: nat, d1: nat, d2: nat)
    requires m > 0 && d1 < m && d2 < m
    requires (b * d1) % m == 1 % m && (b * d2) % m == 1 % m
    ensures d1 == d2
  {
    if m > 1 {
      DivModUnique(1, m, 0, 1);
      DivModUnique(d1, m, 0, d1);
      DivModUnique(d2, m, 0, d2);
      var x := d1 * (b * d2);
      assert x == d2 * (b * d1);
      MulMod(d1, b * d2, m);
      MulMod(d2, b * d1, m);
      assert x % m == (d1 * 1) % m;
      assert x % m == (d2 * 1) % m;
    }
  }

  /** Python's `pow(base, exp, mod)`. A zero modulus raises; a negative
      exponent raises the inverse of base (which must exist) to -exp; the
      result has the sign of the modulus. */
  function PyPow(base: int, exp: int, mod: int): (r: Result<int>)
    ensures mod == 0 <==> r == Err(ZeroModulus)
    ensures mod != 0 && exp >= 0 ==> r == Ok(PyMod(Pow(base, exp), mod))
    ensures mod != 0 && exp < 0 ==> (r.Ok? <==> Gcd(base % Abs(mod), Abs(mod)) == 1)
    ensures mod != 0 && exp < 0 && r.Err? ==> r.error == NotInvertible
    ensures mod != 0 && exp < 0 && r.Ok? ==>
              Reduced(r.value, mod) && PyMod(r.value * Pow(base, -exp), mod) == PyMod(1, mod)
  {
    if mod == 0 then Err(ZeroModulus)
    else
      var m := Abs(mod);
      if exp >= 0 then
        DivModUnique(ModPow(base, exp, m), m, 0, ModPow(base, exp, m));
        PyModCongruent(ModPow(base, exp, m), Pow(base, exp), mod);
        Ok(PyMod(ModPow(base, exp, m), mod))
      else
        match ModInverse(base, m)
        case None => Err(NotInvertible)
        case Some(inv) =>
          var v := PyMod(ModPow(inv, -exp, m), mod);
          NegativePowerInverts(base, -exp, mod, inv, v);
          Ok(v)
  }

  /** What the negative-exponent branch of `PyPow` computes is an inverse of base^k. */
  lemma NegativePowerInverts(base: int, k: nat, mod: int, inv: int, v: int)
    requires mod != 0 && (base * inv) % Abs(mod) == 1 % Abs(mod)
    requires v == PyMod(Pow(inv, k) % Abs(mod), mod)
    ensures PyMod(v * Pow(base, k), mod) == PyMod(1, mod)
  {
    var m := Abs(mod);
    var w := Pow(inv, k) % m;
    var t := Pow(base, k);
    // v and inv^k agree modulo m
    AbsDivides(mod, w - v);
    SameRemainderIffDivides(w, v, m);
    DivModUnique(w, m, 0, w);
    assert v % m == Pow(inv, k) % m;
    // v * base^k agrees with (inv * base)^k, that is with 1^k, modulo m
    MulMod(v, t, m);
    MulMod(Pow(inv, k), t, m);
    assert (v * t) % m == (Pow(inv, k) * t) % m;
    PowOfProduct(inv, base, k);
    assert inv * base == base * inv;
    PowMod(inv * base, k, m);
    PowMod(1, k, m);
    PowOne(k);
    assert (v * t) % m == 1 % m;
    PyModCongruent(v * t, 1, mod);
  }
}
