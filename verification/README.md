# Textbook RSA in the Shor's-algorithm demo, modelled in Dafny

The dashboard in `shor2.py` uses toy numbers to show why RSA key exchange
falls to a quantum adversary. Its only computation is a small RSA pipeline:

- **Key setup** (shor2.py:23-27). Fix the primes p = 17 and q = 23. Compute
  n = p·q and φ = (p−1)(q−1). Fix e = 3 and take d = `pow(e, -1, phi)`.
- **Session key and encryption** (shor2.py:29-30). Draw a session key from
  [20, 80] and encrypt it as `pow(session_key, e, n)`.
- **The "attack"** (shor2.py:137-140). Take the already known p and q as the
  "found" factors. Recompute the private exponent as `d_eve` and decrypt with
  `pow(encrypted_key, d_eve, n)`. No factoring happens.

This is the raw RSA encryption and decryption primitive (RSAEP and RSADP,
sections 5.1.1 and 5.1.2 of RFC 8017) with no padding. The private exponent
is taken modulo φ(n) rather than λ(n).

The model is pure: module-level names become functions, and the button
handler becomes a plain call. It has five modules:

- `Arith` (arith.dfy): the naive power `Pow` and facts about remainders.
- `Divisibility` (divisibility.dfy): `Gcd`, the extended Euclidean algorithm
  `ExtGcd`, primes, Euclid's lemma, and the rule that two distinct primes
  dividing a number means their product divides it.
- `Fermat` (fermat.dfy): Fermat's little theorem, proved through the binomial
  theorem.
- `PyBuiltins` (builtins.dfy): Python's `%` and three-argument `pow`.
  `ModPow` (square-and-multiply) and `ModInverse` (extended Euclid) compute
  them.
- `Rsa` (rsa.dfy): `KeySetup`, `Encrypt`, `AttackerExponent` and `Recover`,
  the demo constants, and the round-trip theorems.

Python's `pow(base, exp, mod)` is modelled with its documented behaviour:

- `mod == 0` raises `ValueError`. In the model this is `Err(ZeroModulus)`.
- A negative exponent raises the inverse of `base` modulo |mod| to `-exp`.
  If there is no inverse, it raises `ValueError`. In the model this is
  `Err(NotInvertible)`.
- The result takes the sign of the modulus, like Python's `%`.

`KeySetup` therefore needs no precondition. As in shor2.py, the setup has no
error kind of its own: a `pow` failure is passed through unchanged.

Recovery is deterministic by construction. `Recover` is a function of its
arguments, and there is no state that could change between two calls.

## Model

| member | source | states |
|---|---|---|
| `PyBuiltins.ModPow` | shor2.py:30 | Square-and-multiply with every intermediate reduced mod m equals b^x mod m, where b^x is naive repeated multiplication |
| `PyBuiltins.ModInverse` | shor2.py:27 | Returns a d with (b·d) mod m = 1 mod m and 0 ≤ d < m exactly when gcd(b mod m, m) = 1, and nothing otherwise |
| `PyBuiltins.NoInverseUnlessCoprime` | shor2.py:27 | When gcd(b mod m, m) ≠ 1, no integer d inverts b modulo m, so the error loses no solution |
| `PyBuiltins.InverseUnique` | shor2.py:139 | Two inverses of b in [0, m) are equal |
| `PyBuiltins.PyPow` | shor2.py:27 | `pow(base, exp, mod)`: a zero modulus is an error. For exp ≥ 0 the result is base^exp mod mod, Python style. For exp < 0 it succeeds iff base is coprime to |mod|, and the result is reduced and inverts base^(−exp) |
| `PyBuiltins.PyMod` | shor2.py:30 | Python's `x % mod`: the result lies in [0, mod) or (mod, 0] and differs from x by a multiple of mod |
| `Rsa.KeySetup` | shor2.py:23-27 | Gives n = p·q and φ = (p−1)(q−1). d is reduced modulo φ and e·d ≡ 1 (mod φ). φ = 0 is `ZeroModulus`. Otherwise setup succeeds iff gcd(e mod |φ|, |φ|) = 1 and fails with `NotInvertible` |
| `Rsa.PrivateExponentInverts` | shor2.py:26-27 | For distinct primes, φ ≥ 2. Setup succeeds iff gcd(e mod φ, φ) = 1, and then 0 ≤ d < φ and (e·d) mod φ = 1 |
| `Rsa.DemoPrimes` | shor2.py:23 | The fixed p = 17 and q = 23 are prime |
| `Rsa.DemoKeyValues` | shor2.py:23-27 | For p = 17, q = 23, e = 3 the setup yields n = 391, φ = 352, d = 235 |
| `Rsa.DemoRejectsEvenExponent` | shor2.py:27 | With p = 17, q = 23 the exponent e = 2 is rejected with `NotInvertible`, with no spurious d |
| `Rsa.Encrypt` | shor2.py:30 | For n > 0 and e ≥ 0 the ciphertext is m^e mod n and lies in [0, n). n = 0 is an error |
| `Rsa.AttackerExponent` | shor2.py:138-139 | The exponent recomputed from the handed-over factors is exactly the setup's d, or the setup's error |
| `Rsa.PrivateExponentUnique` | shor2.py:139 | For distinct primes, any d′ in [0, φ) with (e·d′) mod φ = 1 is the setup's d and is what the attacker computes |
| `Rsa.Recover` | shor2.py:137-140 | An error computing d_eve propagates. n = 0 is an error. A recovered value is reduced modulo n |
| `Rsa.RsaCorrect` | shor2.py:140 | For distinct primes p, q, with e·d ≡ 1 (mod (p−1)(q−1)) and 0 ≤ m < p·q: (m^e)^d mod p·q = m |
| `Rsa.RecoverRoundTrip` | shor2.py:138-140 | For keys from two distinct primes and e ≥ 1, every 0 ≤ m < n encrypts to a ciphertext in [0, n), and `Recover` with the same factors returns exactly m |
| `Rsa.DemoSessionRoundTrip` | shor2.py:29-30 | Every session key in [20, 80] is below n = 391, encrypts to a ciphertext in [0, 391), and the attack recovers it |

## Left out

- Streamlit page setup, headers, metrics, columns and status panels are not modelled. They display values and compute nothing.
- Plotly charts and the pandas tables behind them are not modelled. They are hard-coded literals for display.
- The `st.button` gate is not modelled: `Recover` is a plain function call.
- `random.randint` is not modelled. The session key is a parameter, and `InSessionRange` states its range [20, 80]. The draw's distribution is not modelled.
- Factoring and Shor's algorithm are not modelled, because the code does neither: the "found" factors are the known p and q.
- CPython's own implementation of `pow` is not modelled. `ModPow` and `ModInverse` are separate algorithms with the builtin's documented results.
- Determinism of recovery has no separate lemma. `Recover` is a function, so equal arguments give equal results by construction.
- Rsa.RecoverRoundTrip: needs e ≥ 1. With a negative public exponent, encryption would first invert the plaintext modulo n. The demo fixes e = 3.
