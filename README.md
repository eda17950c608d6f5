# RSA teaching tool: a verified model of its arithmetic core

The system teaches RSA through a small web application. An Express
backend (`backend/server.js`) does the following with exact integers:
- It checks that two numbers p and q are distinct primes.
- It derives the key pair n = p·q, φ = (p−1)(q−1), e = 65537 and
  d = e⁻¹ mod φ, together with a step-by-step explanation.
- It keeps the last key set generated in a global called `CURRENT_KEYS`.
- It encrypts and decrypts integers by square-and-multiply modular
  exponentiation.

A React page (`frontend/src/Visualizations.jsx`) has its own copy of the
primality test. It also draws a 1..100 prime grid, a "modular clock", and an
RSA walkthrough whose Previous/Next buttons move through seven steps.

The model has six modules:

- `Wrappers`: `Option` and `Result`.
- `Numbers`: divisibility, primality, powers, and `JsRem`.
  - `JsRem` is JavaScript's `%`: it truncates toward zero, so the remainder takes the sign of the dividend.
  - The module also holds the arithmetic lemmas behind trial division and behind `%` on products and powers.
- `ModArith`: the greatest common divisor, modular inverses, and a verified extended Euclid (`ModInv`).
  - `ModInv` replaces the `modInv` function the backend imports from the `bigint-mod-arith` package.
- `Fermat`:
  - Bezout's identity and Euclid's lemma.
  - The binomial theorem, derived from Pascal's rule.
  - Fermat's little theorem.
  - The step that combines congruences for two distinct primes, used by the RSA round trip.
- `Server`: the backend.
  - `isPrime` and `modExp` become methods with loops.
  - The key-derivation body of `/api/generate-keys` becomes `DeriveKeys`.
  - `CURRENT_KEYS` becomes the field `keys` of class `KeyHolder`. Its methods `GenerateKeys`, `Encrypt` and `Decrypt` are the three endpoints.
  - `KeyHolder.Valid()` states that held keys always come from two distinct primes.
  - `RoundTrip` proves that such keys decrypt what they encrypt: m^(e·d) ≡ m (mod n) for every 0 ≤ m < n.
- `Visualizations`: the frontend arithmetic.
  - `checkIsPrime` and the prime grid.
  - The clock remainder `((x % m) + m) % m`.
  - The class `StepWalkthrough`, which holds the `currentStep` state.

## Model

| member | source | states |
|---|---|---|
| Numbers.JsRem | backend/server.js:126-133 | JavaScript's `%`: the remainder is smaller than the divisor in absolute value, takes the sign of the dividend (never of the divisor), and differs from the dividend by a multiple of the divisor |
| Server.IsPrime | backend/server.js:14-22 | the 6k±1 trial division returns true exactly when its argument is prime (each case is handled: ≤1, 2 and 3, multiples of 2 or 3, and a divisor found below the square root) |
| Server.ModExp | backend/server.js:122-137 | throws (Failure) exactly on modulus 0, otherwise exactly on a negative exponent; exponent 0 gives 1; a positive exponent gives base^exponent reduced by JavaScript's truncating `%` |
| Server.ModExpCanonical | backend/server.js:126-136 | for non-negative base, positive exponent and positive modulus, the `modExp` result is base^exponent mod modulus and lies in [0, modulus) |
| Server.DeriveKeys | backend/server.js:29-61 | fails with the invalid-primes error exactly when p, q are not distinct primes, fails with the no-inverse error exactly when 65537 has no inverse mod (p−1)(q−1), and otherwise returns n = p·q, φ = (p−1)(q−1), e = 65537, the inverse d in [0, φ) and the four explanation steps in order |
| Server.DerivedInverse | backend/server.js:35-40 | for distinct primes, φ ≥ 2 and n ≥ 6, and the derived d is ≥ 1 with e·d mod φ = 1 |
| Server.TotientAtLeastTwo | backend/server.js:35-38 | distinct primes give (p−1)(q−1) ≥ 2 and p·q ≥ 6 |
| Server.ExponentDividingTotientHasNoInverse | backend/server.js:39-40 | when 65537 divides φ, no inverse of e modulo φ exists, so key generation takes its error path |
| Server.ElevenThirteenValid | backend/server.js:31-40 | 11 and 13 pass the prime check, and 65537 is invertible modulo 120, so key generation on them succeeds |
| Server.ElevenThirteenKeys | backend/server.js:35-58 | any reply key generation owes for 11 and 13 has n = 143, φ = 120, e = 65537 and d = 113 |
| Server.KeyHolder.constructor | backend/server.js:11 | the server starts holding no keys |
| Server.KeyHolder.GenerateKeys | backend/server.js:27-62 | fails with the invalid-primes error exactly when p, q are not distinct primes, with the no-inverse error exactly when 65537 has no inverse mod (p−1)(q−1), and with no other error, so valid primes with an invertible e always succeed; on success stores exactly {n, e, d} of the reply, and on failure the held keys are unchanged; held keys always stem from distinct primes |
| Server.KeyHolder.Encrypt | backend/server.js:66-92 | without keys (or with zero e or n) reports keys-not-generated; m ≥ n reports the size error; otherwise returns m^e reduced modulo n with the formula's numbers; held keys are unchanged |
| Server.KeyHolder.Decrypt | backend/server.js:97-118 | without keys (or with zero d or n) reports keys-not-generated; otherwise returns c^d reduced modulo n with the formula's numbers; no bound on c; held keys are unchanged |
| Server.DerivedKeysUsable | backend/server.js:70-83 | stored keys pass the handlers' key checks (e = 65537, n ≥ 6, d ≥ 1), and a message in [0, n) encrypts to a ciphertext in [0, n) that equals m^e mod n |
| Server.KeyHolder.EncryptThenDecrypt | backend/server.js:66-118 | with keys from key generation, a message in [0, n) passes the encrypt handler, its ciphertext lies in [0, n), that ciphertext passes the decrypt handler, and the decrypted value is the message |
| Server.RoundTrip | backend/server.js:83-109 | for stored keys and 0 ≤ m < n, decrypting the encryption of m gives m, and encrypting the decryption of m gives m |
| Server.ExponentsUndo | backend/server.js:38-40 | exponents x, y with x·y ≡ 1 mod (p−1)(q−1) undo each other modulo p·q on [0, p·q) |
| ModArith.ModInv | backend/server.js:40 | returns the inverse of a modulo n in [0, n) when one exists, and None only when no inverse exists |
| ModArith.InverseUnique | backend/server.js:40 | an inverse modulo n in [0, n) is unique, so d is determined by e and φ |
| ModArith.NoInverseUnlessCoprime | backend/server.js:40 | a number and a modulus with a common factor above 1 have no inverse |
| Fermat.FermatLittle | backend/server.js:83-109 | p divides a^p − a for a prime p |
| Fermat.FermatPower | backend/server.js:83-109 | m^(1 + (p−1)·c) ≡ m (mod p) for a prime p, whether or not p divides m |
| Fermat.EuclidLemma | backend/server.js:83-109 | a prime dividing a product divides one of the factors |
| Fermat.DistinctPrimesDivide | backend/server.js:83-109 | a number divisible by two distinct primes is divisible by their product |
| Fermat.BinomialTheorem | backend/server.js:83-109 | (a + 1)^n is the sum of the binomial terms C(n, k)·a^k |
| Fermat.Bezout | backend/server.js:40 | Bezout coefficients s, t with s·x + t·y = gcd(x, y) |
| Numbers.NoDivisorBelowRoot | backend/server.js:18-21 | a number > 1 with no divisor between 2 and the first i with i·i > num is prime |
| Numbers.WheelStep | backend/server.js:18-19 | after testing i and i + 2 (with i = 6j + 5), no divisor lies below i + 6 either, as the numbers skipped are multiples of 2 or 3 |
| Numbers.JsRemPow | backend/server.js:126-133 | reducing the base by JavaScript's `%` before powering does not change the reduced power |
| Numbers.JsRemMul | backend/server.js:131-133 | the truncating remainder of a product equals that of the product of the remainders |
| Visualizations.CheckIsPrime | frontend/src/Visualizations.jsx:118-126 | the frontend copy of the trial division returns true exactly when its argument is prime |
| Visualizations.NumberGrid | frontend/src/Visualizations.jsx:173-176 | the grid has 100 cells, cell i is classed prime exactly when i + 1 is prime, and the cell of 1 is composite |
| Visualizations.ClockRemainder | frontend/src/Visualizations.jsx:104-108 | yields a value exactly when the modulus is positive (NaN otherwise); the value lies in [0, modulus), is congruent to the number, and equals the Euclidean remainder, negative numbers included |
| Visualizations.StepWalkthrough.constructor | frontend/src/Visualizations.jsx:15 | the walkthrough starts at step 0 |
| Visualizations.StepWalkthrough.Previous | frontend/src/Visualizations.jsx:155 | moves one step back and stops at step 0; the step stays put exactly when the button is disabled; the step stays in [0, 7) |
| Visualizations.StepWalkthrough.Next | frontend/src/Visualizations.jsx:158 | moves one step forward and stops at the last step; the step stays put exactly when the button is disabled; the step stays in [0, 7) |
| Visualizations.StepWalkthrough.Restart | frontend/src/Visualizations.jsx:319 | choosing the RSA visualization resets the walkthrough to step 0 |

## Left out

- HTTP transport: Express routing, CORS, JSON bodies, status codes and port 5000 are not modelled. Each error response becomes one `Error` value.
- Message text: the wording of the error messages and of the explanation lines is not modelled. `Step` and `Formula` keep only the numbers they print. The source's `steps` array has five strings, because step 4 spans backend/server.js:47-48. The model has four `Step` values, and one `InverseStep` stands for both of those lines.
- Parsing: `BigInt(...)` parsing of request fields (backend/server.js:29-30, 74, 105) is not modelled; inputs arrive as integers. In the source these calls sit inside the route handlers but before their `try`, so a non-numeric string (`SyntaxError`), a missing field (`TypeError`) or a fractional number (`RangeError`) escapes the handler and Express answers with status 500.
- Number narrowing: `isPrime(Number(p))` (backend/server.js:31) runs on a double, and the model checks the exact integer and always terminates. Every double ≥ 2^53 is even, so the test at backend/server.js:17 makes the source reject every p or q ≥ 2^53, primes included, where the model accepts them (p = 2^61 − 1 and q = 3 give a 400 in the source and keys in the model). For p ≥ 2^1024, `Number(p)` is Infinity: both `%` tests yield NaN and the loop at backend/server.js:18 never ends, which stalls Node's single thread for every later request. Neither the rejection nor the hang is modelled.
- `CURRENT_KEYS`: its declaration at backend/server.js:11 is commented out. Reading it before the first key generation would throw a `ReferenceError`. The model folds that into the keys-not-generated error and starts with no keys.
- Server.DeriveKeys: the source's one invalid-primes message covers "not prime" and "equal" alike, so the model has a single `InvalidPrimes` error. There is also no separate check that φ is not divisible by e. That case surfaces only as a failure of `modInv`.
- Server.DeriveKeys: the inverse is computed by the model's own extended Euclid (`ModArith.ModInv`). The `bigint-mod-arith` package is not part of this model. The contract fixes d as the unique inverse in [0, φ).
- Server.ExponentDividingTotientHasNoInverse: only the direction "65537 divides φ ⇒ no inverse" is proved. The converse needs the primality of 65537, which is not proved here.
- Server.ModExp: for exponent 0 the loop does not run, so 1 is returned even when |modulus| is 1. The model states that quirk as written.
- Server.KeyHolder.Encrypt: negative messages are accepted and give negative ciphertexts through the truncating `%`. The model states that behaviour, and `RoundTrip` covers only 0 ≤ m < n.
- BigInt width: BigInt arithmetic is unbounded, like Dafny's `int`, so no wrap-around is modelled.
- Walkthrough text: the `rsaSteps` descriptions and the frontend's own n and φ are display text computed in floating point. Only their count, 7, is modelled.
- Visualizations.ClockRemainder: the model computes on exact integers. The page computes on IEEE doubles, where `+ modulus` rounds once values pass 2^53, so the two agree at least while |number| + modulus ≤ 2^53 (for number −1 and modulus 2^54 the page shows 0).
- Frontend plumbing: `parseInt` fallbacks, React state plumbing, clock-hand geometry (`calculateHandRotation`) and other floating-point display are not modelled.
- ECC visualisation: the elliptic-curve page built on `@noble/curves` is not modelled. Other modules of the frontend, its fetch calls, and the remaining routes are not part of this model.
- Concurrency: concurrent requests are not modelled. Each handler runs on its own, which is how Node's event loop runs these synchronous handlers.
