/** The exact-integer RSA engine of the backend: the primality test, modular
    exponentiation, key derivation and the encrypt/decrypt handlers, with the
    HTTP transport removed. `CURRENT_KEYS` becomes the one field of a
    `KeyHolder` object. */
module Server {
  import opened Wrappers
  import opened Numbers
  import opened ModArith
  import opened Fermat

  /** The fixed public exponent chosen by key generation. */
  const PublicExponent := 65537

  /** The failures the handlers report, one per error response or throw. */
  datatype Error =
    | InvalidPrimes      // p or q not prime, or p == q (one message covers all three)
    | NoInverse          // modInv found no inverse of e modulo phi
    | ZeroModulus        // modExp: "Modulus must be non-zero"
    | NegativeExponent   // modExp: "Negative exponents not supported"
    | KeysNotGenerated   // no keys held
    | MessageTooLarge    // m >= n
    | EncryptionFailed   // modExp threw inside the encrypt handler
    | DecryptionFailed   // modExp threw inside the decrypt handler

  /** What `CURRENT_KEYS` holds after a successful key generation. */
  datatype KeyMaterial = KeyMaterial(n: int, e: int, d: int)

  /** One line of the key-derivation explanation, as the quantities it shows. */
  datatype Step =
    | ModulusStep(p: int, q: int, n: int)
    | TotientStep(pMinus1: int, qMinus1: int, phi: int)
    | ExponentStep(e: int)
    | InverseStep(e: int, phi: int, d: int)

  /** The key-generation response body. */
  datatype KeyReply = KeyReply(n: int, phi: int, e: int, d: int, steps: seq<Step>)

  /** The `C = M^e mod n` / `M = C^d mod n` text of a response, as its numbers. */
  datatype Formula = Formula(base: int, exponent: int, modulus: int)

  /** The encrypt and decrypt response bodies. */
  datatype CryptoReply = CryptoReply(value: int, formula: Formula)

  ghost predicate DistinctPrimes(p: int, q: int) {
    Prime(p) && Prime(q) && p != q
  }

  /** The reply that key generation owes for the primes p and q. */
  ghost predicate KeysFor(p: int, q: int, k: KeyReply) {
    var phi := (p - 1) * (q - 1);
    k.n == p * q && k.phi == phi && k.e == PublicExponent &&
    0 <= k.d < phi && IsModInverse(PublicExponent, k.d, phi) &&
    k.steps == [ModulusStep(p, q, k.n), TotientStep(p - 1, q - 1, phi),
                ExponentStep(PublicExponent), InverseStep(PublicExponent, phi, k.d)]
  }

  /** Key material that some pair of distinct primes yields. */
  ghost predicate Derived(k: KeyMaterial) {
    exists p, q :: DistinctPrimes(p, q) && DerivedFrom(k, p, q)
  }

  ghost predicate DerivedFrom(k: KeyMaterial, p: int, q: int) {
    var phi := (p - 1) * (q - 1);
    k.n == p * q && k.e == PublicExponent && 0 <= k.d < phi && IsModInverse(k.e, k.d, phi)
  }

  /** `isPrime`: trial division by 2, 3 and then the numbers 6k-1 and 6k+1
      while their square does not exceed the candidate. (Every operand of
      `%` here is positive, so JavaScript's remainder and Dafny's agree.) */
  method IsPrime(num: int) returns (b: bool)
    ensures b <==> Prime(num)
  {
    if num <= 1 {
      return false;
    }
    if num <= 3 {
      return true;
    }
    if num % 2 == 0 || num % 3 == 0 {
      assert Divides(2, num) || Divides(3, num);
      return false;
    }
    var i := 5;
    ghost var j := 0;
    while i * i <= num
      invariant i == 6 * j + 5 && j >= 0
      invariant forall k :: 2 <= k < i ==> !Divides(k, num)
    {
      if num % i == 0 || num % (i + 2) == 0 {
        BelowSquare(i, num);
        assert Divides(i, num) || Divides(i + 2, num);
        return false;
      }
      WheelStep(num, i, j);
      i, j := i + 6, j + 1;
    }
    NoDivisorBelowRoot(num, i);
    return true;
  }

  /** `modExp`: square-and-multiply with JavaScript's truncating `%`. With
      a positive exponent the result is base^exponent reduced by that `%`;
      with exponent zero the loop does not run and 1 comes back unreduced. */
  method ModExp(base: int, exponent: int, modulus: int) returns (r: Result<int, Error>)
    ensures modulus == 0 <==> r == Failure(ZeroModulus)
    ensures modulus != 0 && exponent < 0 <==> r == Failure(NegativeExponent)
    ensures modulus != 0 && exponent == 0 ==> r == Success(1)
    ensures modulus != 0 && exponent > 0 ==> r == Success(JsRem(Pow(base, exponent), modulus))
  {
    if modulus == 0 {
      return Failure(ZeroModulus);
    }
    if exponent < 0 {
      return Failure(NegativeExponent);
    }
    var b := JsRem(base, modulus);
    var x := exponent;
    var result := 1;
    JsRemPow(base, exponent, modulus);
    while x > 0
      invariant 0 <= x <= exponent
      invariant JsRem(result * Pow(b, x), modulus) == JsRem(Pow(base, exponent), modulus)
      invariant x == exponent ==> result == 1
      invariant x == 0 < exponent ==> result == JsRem(result, modulus)
    {
      ghost var (result0, b0, x0) := (result, b, x);
      if x % 2 == 1 {
        result := JsRem(result * b, modulus);
      }
      b := JsRem(b * b, modulus);
      x := x / 2;
      SquareAndMultiplyStep(result0, b0, x0, modulus);
      JsRemIdempotent(result0 * b0, modulus);
    }
    return Success(result);
  }

  /** One iteration of the `modExp` loop keeps the reduced value of
      result * base^exponent. */
  lemma SquareAndMultiplyStep(result: int, b: int, x: nat, m: int)
    requires m != 0 && x > 0
    ensures var result' := if x % 2 == 1 then JsRem(result * b, m) else result;
            JsRem(result' * Pow(JsRem(b * b, m), x / 2), m) == JsRem(result * Pow(b, x), m)
  {
    var result' := if x % 2 == 1 then JsRem(result * b, m) else result;
    var odd := if x % 2 == 1 then b else 1;
    JsRemPow(b * b, x / 2, m);
    if x % 2 == 1 {
      JsRemIdempotent(result * b, m);
    }
    JsRemMulCongruent(result', result * odd, Pow(JsRem(b * b, m), x / 2), Pow(b * b, x / 2), m);
    PowHalve(b, x);
    MulAssoc(result, odd, Pow(b * b, x / 2));
  }

  /** The modular exponentiation the source promises on non-negative
      operands and a positive modulus: base^exponent mod modulus, in range. */
  lemma ModExpCanonical(base: int, exponent: nat, modulus: int)
    requires base >= 0 && exponent > 0 && modulus > 0
    ensures JsRem(Pow(base, exponent), modulus) == Pow(base, exponent) % modulus
    ensures 0 <= JsRem(Pow(base, exponent), modulus) < modulus
  {
    PowNonNegative(base, exponent);
    JsRemNonNegative(Pow(base, exponent), modulus);
  }

  /** The key-derivation body of `/api/generate-keys`: validate p and q,
      compute n, phi, e and d, and build the explanation. It changes no
      state; `KeyHolder.GenerateKeys` stores its result. */
  method DeriveKeys(p: int, q: int) returns (r: Result<KeyReply, Error>)
    ensures r == Failure(InvalidPrimes) <==> !DistinctPrimes(p, q)
    ensures r == Failure(NoInverse) <==> DistinctPrimes(p, q) && !Invertible(PublicExponent, (p - 1) * (q - 1))
    ensures r.Success? ==> DistinctPrimes(p, q) && KeysFor(p, q, r.value)
    ensures r.Failure? ==> r.error == InvalidPrimes || r.error == NoInverse
  {
    var pPrime := IsPrime(p);
    var qPrime := IsPrime(q);
    if !pPrime || !qPrime || p == q {
      return Failure(InvalidPrimes);
    }
    var n := p * q;
    var pMinus1 := p - 1;
    var qMinus1 := q - 1;
    var phi := pMinus1 * qMinus1;
    var e := PublicExponent;
    var inverse := ModInv(e, phi);
    if inverse.None? {
      return Failure(NoInverse);
    }
    var d := inverse.value;
    var steps := [ModulusStep(p, q, n), TotientStep(pMinus1, qMinus1, phi),
                  ExponentStep(e), InverseStep(e, phi, d)];
    return Success(KeyReply(n, phi, e, d, steps));
  }

  /** For distinct primes the totient is at least 2, so a derived d is a
      positive number with e * d ≡ 1 (mod phi). */
  lemma DerivedInverse(p: int, q: int, d: int)
    requires DistinctPrimes(p, q) && 0 <= d < (p - 1) * (q - 1)
    requires IsModInverse(PublicExponent, d, (p - 1) * (q - 1))
    ensures (p - 1) * (q - 1) >= 2 && p * q >= 6
    ensures (PublicExponent * d) % ((p - 1) * (q - 1)) == 1
    ensures d >= 1
  {
    TotientAtLeastTwo(p, q);
    ModOfSmall(1, (p - 1) * (q - 1));
  }

  /** Distinct primes are at least 2 and 3, so phi >= 1 * 2 and n >= 2 * 3.
      The solver can find this alone but not reliably on every random seed;
      the steps below spell out the nonlinear part so that it always does. */
  lemma TotientAtLeastTwo(p: int, q: int)
    requires DistinctPrimes(p, q)
    ensures (p - 1) * (q - 1) >= 2 && p * q >= 6
  {
    if p < q {
      MulMono(p - 1, q - 1, 1);
      assert (p - 1) * (q - 1) == (p - 1) * (q - 2) + (p - 1);
      MulMono(p - 1, q - 2, 1);
      MulMono(p, q, 2);
      assert p * q == p * (q - 3) + 3 * p;
      MulMono(p, q - 3, 0);
    } else {
      assert (p - 1) * (q - 1) == (q - 1) * (p - 1);
      assert p * q == q * p;
      assert (q - 1) * (p - 1) == (q - 1) * (p - 2) + (q - 1);
      MulMono(q - 1, p - 2, 1);
      assert q * p == q * (p - 3) + 3 * q;
      MulMono(q, p - 3, 0);
    }
  }

  /** When 65537 divides phi, key generation must fail: e and phi share the
      factor 65537. */
  lemma ExponentDividingTotientHasNoInverse(phi: int)
    requires phi > 0 && phi % PublicExponent == 0
    ensures !Invertible(PublicExponent, phi)
  {
    ModOfMultiple(1, PublicExponent);
    forall d
      ensures !IsModInverse(PublicExponent, d, phi)
    {
      CommonFactorBlocksInverse(PublicExponent, phi, PublicExponent, d);
    }
  }

  /** The holder of `CURRENT_KEYS`: either no keys or the material of the
      last successful key generation. */
  class KeyHolder {
    var keys: Option<KeyMaterial>

    ghost predicate Valid()
      reads this
    {
      keys.Some? ==> Derived(keys.value)
    }

    constructor ()
      ensures Valid() && keys == None
    {
      keys := None;
    }

    /** `/api/generate-keys`: replaces the held keys on success only. */
    method GenerateKeys(p: int, q: int) returns (r: Result<KeyReply, Error>)
      requires Valid()
      modifies this
      ensures Valid()
      ensures r == Failure(InvalidPrimes) <==> !DistinctPrimes(p, q)
      ensures r == Failure(NoInverse) <==> DistinctPrimes(p, q) && !Invertible(PublicExponent, (p - 1) * (q - 1))
      ensures r.Success? ==> DistinctPrimes(p, q) && KeysFor(p, q, r.value)
      ensures r.Failure? ==> r.error == InvalidPrimes || r.error == NoInverse
      ensures r.Success? ==> keys == Some(KeyMaterial(r.value.n, r.value.e, r.value.d))
      ensures r.Failure? ==> keys == old(keys)
    {
      r := DeriveKeys(p, q);
      if r.Success? {
        var k := KeyMaterial(r.value.n, r.value.e, r.value.d);
        assert DerivedFrom(k, p, q);
        keys := Some(k);
      }
    }

    /** `/api/encrypt`: needs keys with nonzero e and n and a message below
        n, then returns m^e reduced modulo n. The message may be negative;
        then so may the ciphertext. */
    method Encrypt(m: int) returns (r: Result<CryptoReply, Error>)
      ensures keys.None? || keys.value.e == 0 || keys.value.n == 0 ==> r == Failure(KeysNotGenerated)
      ensures keys.Some? && keys.value.e != 0 && keys.value.n != 0 ==>
              var k := keys.value;
              if m >= k.n then r == Failure(MessageTooLarge)
              else if k.e < 0 then r == Failure(EncryptionFailed)
              else r == Success(CryptoReply(JsRem(Pow(m, k.e), k.n), Formula(m, k.e, k.n)))
    {
      if keys.None? || keys.value.e == 0 || keys.value.n == 0 {
        return Failure(KeysNotGenerated);
      }
      var k := keys.value;
      if m >= k.n {
        return Failure(MessageTooLarge);
      }
      var c := ModExp(m, k.e, k.n);
      if c.Failure? {
        return Failure(EncryptionFailed);
      }
      return Success(CryptoReply(c.value, Formula(m, k.e, k.n)));
    }

    /** `/api/decrypt`: needs keys with nonzero d and n, and puts no bound on
        the ciphertext; returns c^d reduced modulo n. */
    method Decrypt(c: int) returns (r: Result<CryptoReply, Error>)
      ensures keys.None? || keys.value.d == 0 || keys.value.n == 0 ==> r == Failure(KeysNotGenerated)
      ensures keys.Some? && keys.value.d != 0 && keys.value.n != 0 ==>
              var k := keys.value;
              if k.d < 0 then r == Failure(DecryptionFailed)
              else r == Success(CryptoReply(JsRem(Pow(c, k.d), k.n), Formula(c, k.d, k.n)))
    {
      if keys.None? || keys.value.d == 0 || keys.value.n == 0 {
        return Failure(KeysNotGenerated);
      }
      var k := keys.value;
      var m := ModExp(c, k.d, k.n);
      if m.Failure? {
        return Failure(DecryptionFailed);
      }
      return Success(CryptoReply(m.value, Formula(c, k.d, k.n)));
    }

    /** A message in [0, n) sent through the encrypt handler and its
        ciphertext sent through the decrypt handler: with keys from key
        generation both succeed and the message comes back. */
    method EncryptThenDecrypt(m: int) returns (c: Result<CryptoReply, Error>, back: Result<CryptoReply, Error>)
      requires Valid() && keys.Some? && 0 <= m < keys.value.n
      ensures c.Success? && 0 <= c.value.value < keys.value.n
      ensures back.Success? && back.value.value == m
    {
      DerivedKeysUsable(keys.value, m);
      RoundTrip(keys.value, m);
      c := Encrypt(m);
      back := Decrypt(c.value.value);
    }
  }

  /** Keys that key generation stored pass every check of the encrypt and
      decrypt handlers, so with such keys encryption fails only on m >= n,
      decryption never fails, and a message in [0, n) encrypts into [0, n). */
  lemma DerivedKeysUsable(k: KeyMaterial, m: int)
    requires Derived(k)
    ensures k.e == PublicExponent && k.n >= 6 && k.d >= 1
    ensures 0 <= m < k.n ==>
              0 <= JsRem(Pow(m, k.e), k.n) < k.n && JsRem(Pow(m, k.e), k.n) == Pow(m, k.e) % k.n
  {
    var p, q :| DistinctPrimes(p, q) && DerivedFrom(k, p, q);
    DerivedInverse(p, q, k.d);
    if 0 <= m < k.n {
      ModExpCanonical(m, k.e, k.n);
    }
  }

  /** RSA's promise for the keys that key generation stores: decrypting the
      encryption of a message in [0, n) gives the message back, and
      encrypting the decryption of a ciphertext in [0, n) gives that
      ciphertext back. */
  lemma RoundTrip(k: KeyMaterial, m: int)
    requires Derived(k) && 0 <= m < k.n
    ensures JsRem(Pow(JsRem(Pow(m, k.e), k.n), k.d), k.n) == m
    ensures JsRem(Pow(JsRem(Pow(m, k.d), k.n), k.e), k.n) == m
  {
    var p, q :| DistinctPrimes(p, q) && DerivedFrom(k, p, q);
    DerivedInverse(p, q, k.d);
    ExponentsUndo(p, q, k.e, k.d, m);
    assert k.d * k.e == k.e * k.d;
    ExponentsUndo(p, q, k.d, k.e, m);
  }

  /** With x * y ≡ 1 (mod (p-1)(q-1)), raising to x and then to y modulo
      p*q is the identity on [0, p*q). */
  lemma ExponentsUndo(p: int, q: int, x: nat, y: nat, m: int)
    requires DistinctPrimes(p, q) && 0 <= m < p * q
    requires (x * y) % ((p - 1) * (q - 1)) == 1
    ensures JsRem(Pow(JsRem(Pow(m, x), p * q), y), p * q) == m
  {
    var n, phi := p * q, (p - 1) * (q - 1);
    TotientAtLeastTwo(p, q);
    PowNonNegative(m, x);
    JsRemPow(Pow(m, x), y, n);
    PowMul(m, x, y);
    NonNegativeProduct(x, y);
    var t := QuotientOfOne(x * y, phi);
    ExponentSplit(t, p, q);
    FermatPower(p, m, t * (q - 1));
    FermatPower(q, m, t * (p - 1));
    var power := Pow(m, x * y);
    DistinctPrimesDivide(p, q, power - m);
    PowNonNegative(m, x * y);
    CongruentToSmall(power, m, n);
  }

  /** A non-negative z with z % phi == 1 is t * phi + 1 for some t >= 0. */
  lemma QuotientOfOne(z: int, phi: int) returns (t: int)
    requires z >= 0 && phi > 0 && z % phi == 1
    ensures z == t * phi + 1 && t >= 0
  {
    t := z / phi;
    SignOfProduct(t, phi);
  }

  lemma ExponentSplit(t: int, p: int, q: int)
    requires t >= 0 && p >= 2 && q >= 2
    ensures t * ((p - 1) * (q - 1)) == (p - 1) * (t * (q - 1)) == (q - 1) * (t * (p - 1))
    ensures t * (q - 1) >= 0 && t * (p - 1) >= 0
  {
  }

  /** The worked example: 11 and 13 are distinct primes and 65537 has an
      inverse modulo (11-1)*(13-1), so key generation succeeds on them ... */
  lemma ElevenThirteenValid()
    ensures DistinctPrimes(11, 13) && Invertible(PublicExponent, 120)
  {
    forall k | 2 <= k < 11
      ensures !Divides(k, 11)
    {
      assert k in {2, 3, 4, 5, 6, 7, 8, 9, 10};
    }
    forall k | 2 <= k < 13
      ensures !Divides(k, 13)
    {
      assert k in {2, 3, 4, 5, 6, 7, 8, 9, 10, 11, 12};
    }
    assert IsModInverse(PublicExponent, 113, 120);
  }

  /** ... and its reply is n = 143, phi = 120 and d = 113. */
  lemma ElevenThirteenKeys(r: KeyReply)
    requires KeysFor(11, 13, r)
    ensures r.n == 143 && r.phi == 120 && r.e == 65537 && r.d == 113
  {
    assert IsModInverse(PublicExponent, 113, 120);
    InverseUnique(PublicExponent, r.d, 113, 120);
  }
}
