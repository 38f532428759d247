/** The demo's textbook RSA: key setup from two primes and a public
    exponent, encryption of a session key, and the "attack", which recovers
    the session key by recomputing the private exponent from factors it is
    handed rather than finding them. This is the raw RSA encryption and
    decryption primitive (RSAEP and RSADP, sections 5.1.1 and 5.1.2 of
    RFC 8017) without padding, with d taken modulo phi(n) = (p-1)(q-1). */
module Rsa {
  import opened Arith
  import opened Divisibility
  import opened Fermat
  import opened PyBuiltins

  /** The demo's fixed primes and public exponent. */
  const DemoP: int := 17
  const DemoQ: int := 23
  const DemoE: int := 3

  /** The inclusive bounds of the randomly drawn session key. */
  const SessionKeyLow: int := 20
  const SessionKeyHigh: int := 80

  /** Everything the setup derives from the two primes and the public exponent. */
  datatype KeyMaterial = KeyMaterial(p: int, q: int, n: int, phi: int, e: int, d: int)

  /** Key setup: n = p * q, phi = (p - 1) * (q - 1) and d = pow(e, -1, phi),
      which fails with the error of `pow` when phi is zero or e has no
      inverse modulo phi. */
  function KeySetup(p: int, q: int, e: int): (r: Result<KeyMaterial>)
    ensures r.Ok? ==> r.value.p == p && r.value.q == q && r.value.e == e
    ensures r.Ok? ==> r.value.n == p * q && r.value.phi == (p - 1) * (q - 1)
    ensures r.Ok? ==> Reduced(r.value.d, r.value.phi)
                      && PyMod(e * r.value.d, r.value.phi) == PyMod(1, r.value.phi)
    ensures (p - 1) * (q - 1) == 0 ==> r == Err(ZeroModulus)
    ensures (p - 1) * (q - 1) != 0 ==>
              (r.Ok? <==> Gcd(e % Abs((p - 1) * (q - 1)), Abs((p - 1) * (q - 1))) == 1)
    ensures (p - 1) * (q - 1) != 0 && r.Err? ==> r.error == NotInvertible
  {
    var n := p * q;
    var phi := (p - 1) * (q - 1);
    match PyPow(e, -1, phi)
    case Err(err) => Err(err)
    case Ok(d) =>
      assert Pow(e, 1) == e;
      assert d * e == e * d;
      Ok(KeyMaterial(p, q, n, phi, e, d))
  }

  /** Encryption of a session key m: pow(m, e, n). */
  function Encrypt(m: int, e: int, n: int): (r: Result<int>)
    ensures n > 0 && e >= 0 ==> r.Ok? && 0 <= r.value < n && r.value == Pow(m, e) % n
    ensures n == 0 ==> r == Err(ZeroModulus)
  {
    PyPow(m, e, n)
  }

  /** The attacker's private exponent, recomputed from the factors it was
      handed: pow(e, -1, (pFound - 1) * (qFound - 1)). */
  function AttackerExponent(pFound: int, qFound: int, e: int): (r: Result<int>)
    ensures KeySetup(pFound, qFound, e).Ok? ==> r == Ok(KeySetup(pFound, qFound, e).value.d)
    ensures KeySetup(pFound, qFound, e).Err? ==> r == Err(KeySetup(pFound, qFound, e).error)
  {
    PyPow(e, -1, (pFound - 1) * (qFound - 1))
  }

  /** The "attack": decrypt the ciphertext c with the recomputed exponent,
      pow(c, dEve, n). No factoring happens: the factors are inputs. */
  function Recover(pFound: int, qFound: int, e: int, c: int, n: int): (r: Result<int>)
    ensures AttackerExponent(pFound, qFound, e).Err? ==> r == Err(AttackerExponent(pFound, qFound, e).error)
    ensures AttackerExponent(pFound, qFound, e).Ok? && n == 0 ==> r == Err(ZeroModulus)
    ensures r.Ok? ==> Reduced(r.value, n)
  {
    match AttackerExponent(pFound, qFound, e)
    case Err(err) => Err(err)
    case Ok(dEve) => PyPow(c, dEve, n)
  }

  /** The product of two distinct primes and its totient, as the proofs below use them. */
  lemma DistinctPrimesModuli(p: int, q: int)
    requires IsPrime(p) && IsPrime(q) && p != q
    ensures p * q > 0 && (p - 1) * (q - 1) >= 2
  {
    if p < q {
      assert q - 1 >= 2;
      MulAtLeast(q - 1, p - 1);
    } else {
      assert p - 1 >= 2;
      MulAtLeast(p - 1, q - 1);
    }
  }

  /** With two distinct primes the setup succeeds exactly when e is coprime
      to phi, and then d is the inverse of e modulo phi in [0, phi). */
  lemma PrivateExponentInverts(p: int, q: int, e: int)
    requires IsPrime(p) && IsPrime(q) && p != q
    ensures var phi := (p - 1) * (q - 1);
            phi >= 2 && (KeySetup(p, q, e).Ok? <==> Gcd(e % phi, phi) == 1)
    ensures KeySetup(p, q, e).Ok? ==>
              var k := KeySetup(p, q, e).value;
              0 <= k.d < k.phi && (k.e * k.d) % k.phi == 1
  {
    var phi := (p - 1) * (q - 1);
    DistinctPrimesModuli(p, q);
    DivModUnique(1, phi, 0, 1);
  }

  /** The private exponent is unique: any d' in [0, phi) that inverts e
      modulo phi, however it was obtained, is the d of the setup, and the
      attacker's recomputation from the same factors yields it too. */
  lemma PrivateExponentUnique(p: int, q: int, e: int, d': int)
    requires IsPrime(p) && IsPrime(q) && p != q && KeySetup(p, q, e).Ok?
    requires 0 <= d' < (p - 1) * (q - 1) && (e * d') % ((p - 1) * (q - 1)) == 1
    ensures d' == KeySetup(p, q, e).value.d
    ensures AttackerExponent(p, q, e) == Ok(d')
  {
    var phi := (p - 1) * (q - 1);
    PrivateExponentInverts(p, q, e);
    DivModUnique(1, phi, 0, 1);
    InverseUnique(e, phi, d', KeySetup(p, q, e).value.d);
  }

  /** RSA modulo one prime factor: m^(1 + (p-1)k) leaves the same remainder as m. */
  lemma RsaModPrime(p: int, m: nat, k: nat)
    requires IsPrime(p)
    ensures Divides(p, Pow(m, 1 + (p - 1) * k) - m)
  {
    var x := (p - 1) * k;
    PowAdd(m, 1, x);
    assert Pow(m, 1) == m;
    assert Pow(m, 1 + x) - m == m * (Pow(m, x) - 1);
    if Divides(p, m) {
      DividesLinear(p, m, m, Pow(m, x) - 1, 0);
    } else {
      var y := Pow(m, p - 1);
      FermatUnit(p, m);
      PowMul(m, p - 1, k);
      PowMod(y, k, p);
      PowOne(k);
      DivModUnique(1, p, 0, 1);
      assert Pow(y, k) % p == 1 % p;
      SameRemainderIffDivides(Pow(y, k), 1, p);
      DividesLinear(p, Pow(m, x) - 1, p, m, 0);
      assert (Pow(m, x) - 1) * m + p * 0 == m * (Pow(m, x) - 1);
    }
  }

  /** Correctness of textbook RSA: for distinct primes p, q, exponents with
      e * d == 1 modulo (p-1)(q-1), and every 0 <= m < p * q,
      (m^e)^d mod (p * q) == m. */
  lemma RsaCorrect(p: int, q: int, e: nat, d: nat, m: nat)
    requires IsPrime(p) && IsPrime(q) && p != q
    requires (p - 1) * (q - 1) > 0 && (e * d) % ((p - 1) * (q - 1)) == 1
    requires m < p * q
    ensures Pow(Pow(m, e), d) % (p * q) == m
  {
    var phi := (p - 1) * (q - 1);
    var n := p * q;
    var ed := e * d;
    var k := ed / phi;
    assert ed == phi * k + 1;
    ExponentSplit(p, q, k, ed);
    var kp: nat, kq: nat := (q - 1) * k, (p - 1) * k;
    RsaModPrime(p, m, kp);
    RsaModPrime(q, m, kq);
    assert Divides(p, Pow(m, ed) - m) && Divides(q, Pow(m, ed) - m);
    DistinctPrimesDivide(p, q, Pow(m, ed) - m);
    DistinctPrimesModuli(p, q);
    SameRemainderIffDivides(Pow(m, ed), m, n);
    DivModUnique(m, n, 0, m);
    PowMul(m, e, d);
  }

  /** e * d == 1 + k * phi, read as an exponent 1 + (p-1) * k' for each prime factor. */
  lemma ExponentSplit(p: int, q: int, k: int, ed: int)
    requires p >= 2 && q >= 2 && ed == (p - 1) * (q - 1) * k + 1 && ed >= 1
    ensures k >= 0 && (q - 1) * k >= 0 && (p - 1) * k >= 0
    ensures ed == 1 + (p - 1) * ((q - 1) * k) && ed == 1 + (q - 1) * ((p - 1) * k)
  {
    if k < 0 {
      MulAtLeast((p - 1) * (q - 1), -k);
      assert false;
    }
  }

  /** The pipeline round trip: with keys set up from two distinct primes and
      e >= 1, encrypting any 0 <= m < n succeeds with a ciphertext in [0, n),
      and the attack, handed the same factors, recovers exactly m. */
  lemma RecoverRoundTrip(p: int, q: int, e: int, m: int)
    requires IsPrime(p) && IsPrime(q) && p != q && e >= 1
    requires KeySetup(p, q, e).Ok? && 0 <= m < p * q
    ensures var n := p * q;
            var c := Encrypt(m, e, n);
            c.Ok? && 0 <= c.value < n && Recover(p, q, e, c.value, n) == Ok(m)
  {
    var keys := KeySetup(p, q, e).value;
    var n := p * q;
    PrivateExponentInverts(p, q, e);
    DistinctPrimesModuli(p, q);
    var d := keys.d;
    PrivateExponentUnique(p, q, e, d);
    var c := Encrypt(m, e, n).value;
    assert c == Pow(m, e) % n;
    PowMod(Pow(m, e), d, n);
    RsaCorrect(p, q, e, d, m);
    assert PyPow(c, d, n) == Ok(Pow(c, d) % n);
  }

  /** The session key is drawn from [20, 80]. */
  predicate InSessionRange(k: int)
  {
    SessionKeyLow <= k <= SessionKeyHigh
  }

  /** The demo's keys: p = 17, q = 23, n = 391, phi = 352, e = 3, d = 235. */
  lemma DemoKeyValues()
    ensures KeySetup(DemoP, DemoQ, DemoE) == Ok(KeyMaterial(17, 23, 391, 352, 3, 235))
  {
    DemoPrimes();
    assert KeySetup(17, 23, 3).Ok? by {
      assert Gcd(3, 352) == 1;
      assert Abs((17 - 1) * (23 - 1)) == 352;
    }
    assert (3 * 235) % 352 == 1;
    PrivateExponentUnique(17, 23, 3, 235);
  }

  /** 17 and 23 are prime. */
  lemma DemoPrimes()
    ensures IsPrime(DemoP) && IsPrime(DemoQ)
  {
    SeventeenIsPrime();
    TwentyThreeIsPrime();
  }

  /** 17 is prime, by trial division. */
  lemma SeventeenIsPrime()
    ensures IsPrime(17)
  {
    assert NoDivisorBelow(17, 9);
    assert NoDivisorBelow(17, 17);
    TrialDivision(17, 17);
  }

  /** 23 is prime, by trial division. */
  lemma TwentyThreeIsPrime()
    ensures IsPrime(23)
  {
    assert NoDivisorBelow(23, 12);
    assert NoDivisorBelow(23, 23);
    TrialDivision(23, 23);
  }

  /** With p = 17 and q = 23, the even exponent e = 2 has no inverse modulo 352 and the setup fails. */
  lemma DemoRejectsEvenExponent()
    ensures KeySetup(DemoP, DemoQ, 2) == Err(NotInvertible)
  {
    assert Gcd(2, 352) == 2;
  }

  /** Every session key the demo can draw is a valid plaintext below n = 391,
      encrypts to a ciphertext in [0, 391), and is recovered by the attack. */
  lemma DemoSessionRoundTrip(k: int)
    requires InSessionRange(k)
    ensures 0 <= k < DemoP * DemoQ
    ensures var c := Encrypt(k, DemoE, DemoP * DemoQ);
            c.Ok? && 0 <= c.value < DemoP * DemoQ && Recover(DemoP, DemoQ, DemoE, c.value, DemoP * DemoQ) == Ok(k)
  {
    DemoKeyValues();
    DemoPrimes();
    RecoverRoundTrip(17, 23, 3, k);
  }
}
