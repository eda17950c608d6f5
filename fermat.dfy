/** The number theory behind RSA's correctness: Bezout's identity, Euclid's
    lemma, the binomial theorem, Fermat's little theorem and the Chinese
    remainder step for two distinct primes. */
module Fermat {
  import opened Numbers
  import opened ModArith

  // ---------------------------------------------------------------------------
  // Bezout and Euclid

  /** Coefficients s, t with s*x + t*y equal to the greatest common divisor. */
  lemma {:induction false} Bezout(x: nat, y: nat) returns (s: int, t: int)
    ensures s * x + t * y == Gcd(x, y)
    decreases y
  {
    if y == 0 {
      s, t := 1, 0;
    } else {
      var s', t' := Bezout(y, x % y);
      assert x % y == x - (x / y) * y;
      s, t := t', s' - t' * (x / y);
      assert s' * y + t' * (x % y) == s * x + t * y;
    }
  }

  /** A positive number below p is not a multiple of p. */
  lemma NotDividesSmaller(p: int, k: int)
    requires 0 < k < p
    ensures !Divides(p, k)
  {
    if Divides(p, k) {
      DividesBound(p, k);
    }
  }

  /** A prime and a number it does not divide have greatest common divisor 1. */
  lemma PrimeCoprime(p: int, a: int)
    requires Prime(p) && !Divides(p, a)
    ensures Gcd(p, a % p) == 1
  {
    var r := a % p;
    var g := Gcd(p, r);
    GcdDivides(p, r);
    DividesBound(g, p);
    if g == p {
      NotDividesSmaller(p, r);
    }
  }

  /** Euclid's lemma: a prime dividing a product divides one of the factors. */
  lemma EuclidLemma(p: int, a: int, b: int)
    requires Prime(p) && Divides(p, a * b)
    ensures Divides(p, a) || Divides(p, b)
  {
    if !Divides(p, a) {
      var r := a % p;
      PrimeCoprime(p, a);
      var s, t := Bezout(p, r);
      EuclidAlgebra(a, b, p, s, t, a / p);
      ModOfMultiple(1, p);
      DividesProduct(p, a * b, t);
      assert (a * b) * t == t * (a * b);
      DividesCombination(p, p, t * (a * b), s * b - t * (a / p) * b);
    }
  }

  /** The rearrangement behind Euclid's lemma: from s*p + t*(a - c*p) == 1,
      b is a multiple of p plus t times a*b. */
  lemma EuclidAlgebra(a: int, b: int, p: int, s: int, t: int, c: int)
    requires s * p + t * (a - c * p) == 1
    ensures b == (s * b - t * c * b) * p + t * (a * b)
  {
    var x, y, z := s * p, t * a, t * (c * p);
    Distribute(t, a, -(c * p));
    assert x + y - z == 1;
    ScaleSum(b, x, y, z);
    Regroup(b, s, p);
    RegroupTriple(b, t, c, p);
    Distribute(p, s * b, -(t * c * b));
  }

  lemma ScaleSum(b: int, x: int, y: int, z: int)
    requires x + y - z == 1
    ensures b == b * x + b * y - b * z
  {
  }

  lemma Regroup(b: int, s: int, p: int)
    ensures b * (s * p) == (s * b) * p
  {
  }

  lemma RegroupTriple(b: int, t: int, c: int, p: int)
    ensures b * (t * (c * p)) == (t * c * b) * p
  {
  }

  /** Two distinct primes that both divide x divide it together. */
  lemma DistinctPrimesDivide(p: int, q: int, x: int)
    requires Prime(p) && Prime(q) && p != q
    requires Divides(p, x) && Divides(q, x)
    ensures Divides(p * q, x)
  {
    var a := x / p;
    assert x == p * a;
    EuclidLemma(q, p, a);
    if Divides(q, p) {
      DividesBound(q, p);
    }
    var b := a / q;
    assert a == b * q;
    assert x == b * (p * q);
    ModOfMultiple(b, p * q);
  }

  // ---------------------------------------------------------------------------
  // Binomial coefficients

  /** Pascal's triangle. */
  function Binom(n: nat, k: nat): nat {
    if k == 0 then 1 else if n == 0 then 0 else Binom(n - 1, k - 1) + Binom(n - 1, k)
  }

  lemma {:induction false} BinomAbove(n: nat, k: nat)
    requires k > n
    ensures Binom(n, k) == 0
  {
    if n > 0 {
      BinomAbove(n - 1, k - 1);
      BinomAbove(n - 1, k);
    }
  }

  lemma {:induction false} BinomDiagonal(n: nat)
    ensures Binom(n, n) == 1
  {
    if n > 0 {
      BinomDiagonal(n - 1);
      BinomAbove(n - 1, n);
    }
  }

  /** The absorption identity k * C(n, k) == n * C(n-1, k-1). */
  lemma {:induction false} Absorption(n: nat, k: nat)
    requires n >= 1 && k >= 1
    ensures k * Binom(n, k) == n * Binom(n - 1, k - 1)
  {
    if n == 1 {
      if k > 1 {
        BinomAbove(0, k - 1);
        BinomAbove(0, k);
      }
    } else if k == 1 {
      Absorption(n - 1, 1);
    } else {
      Absorption(n - 1, k - 1);
      Absorption(n - 1, k);
      var a, b := Binom(n - 1, k - 1), Binom(n - 1, k);
      var c2, c1 := Binom(n - 2, k - 2), Binom(n - 2, k - 1);
      var whole := Binom(n, k);
      assert whole == a + b && a == c2 + c1;
      AbsorptionStep(n, k, a, b, c2, c1);
      assert k * whole == n * a;
    }
  }

  /** The arithmetic of one step of Absorption. */
  lemma AbsorptionStep(n: int, k: int, a: int, b: int, c2: int, c1: int)
    requires a == c2 + c1 && (k - 1) * a == (n - 1) * c2 && k * b == (n - 1) * c1
    ensures k * (a + b) == n * a
  {
    Distribute(k, a, b);
    assert k * a == (k - 1) * a + a;
    Distribute(n - 1, c2, c1);
    assert n * a == (n - 1) * a + a;
  }

  /** p divides C(p, k) for a prime p and 0 < k < p. */
  lemma PrimeDividesBinom(p: nat, k: nat)
    requires Prime(p) && 0 < k < p
    ensures Divides(p, Binom(p, k))
  {
    var c, x := Binom(p - 1, k - 1), Binom(p, k);
    Absorption(p, k);
    DividesMultiple(p, k * x, c);
    EuclidLemma(p, k, x);
    NotDividesSmaller(p, k);
  }

  lemma DividesMultiple(p: int, x: int, c: int)
    requires p > 0 && x == p * c
    ensures Divides(p, x)
  {
    ModOfMultiple(c, p);
  }

  /** The partial binomial sum C(n,0) + C(n,1)*a + ... + C(n,k)*a^k. */
  function BinomSum(a: int, n: nat, k: int): int
    decreases k
  {
    if k < 0 then 0 else BinomSum(a, n, k - 1) + Binom(n, k) * Pow(a, k)
  }

  /** Pascal's rule lifted to the partial sums. */
  lemma {:induction false} PascalSum(a: int, n: nat, k: int)
    requires k >= 0
    ensures BinomSum(a, n + 1, k) == BinomSum(a, n, k) + a * BinomSum(a, n, k - 1)
    decreases k
  {
    if k > 0 {
      PascalSum(a, n, k - 1);
      var p, p' := Pow(a, k), Pow(a, k - 1);
      var lower, upper := Binom(n, k - 1), Binom(n, k);
      var sum1, sum2 := BinomSum(a, n, k - 1), BinomSum(a, n, k - 2);
      assert Binom(n + 1, k) == lower + upper;
      assert BinomSum(a, n + 1, k) == sum1 + a * sum2 + (lower + upper) * p;
      assert BinomSum(a, n, k) == sum1 + upper * p;
      PascalStep(a, p, p', lower, upper, sum1, sum2);
    }
  }

  /** The arithmetic of one step of PascalSum, kept free of the recursive
      definitions. */
  lemma PascalStep(a: int, p: int, p': int, lower: int, upper: int, sum1: int, sum2: int)
    requires p == a * p' && sum1 == sum2 + lower * p'
    ensures sum1 + a * sum2 + (lower + upper) * p == (sum1 + upper * p) + a * sum1
  {
    MulLeftComm(lower, a, p');
    Distribute(p, lower, upper);
    Distribute(a, sum2, lower * p');
  }

  /** The binomial theorem for (a + 1)^n. */
  lemma {:induction false} BinomialTheorem(a: int, n: nat)
    ensures Pow(a + 1, n) == BinomSum(a, n, n)
  {
    if n > 0 {
      BinomialTheorem(a, n - 1);
      PascalSum(a, n - 1, n);
      BinomAbove(n - 1, n);
      var sum := BinomSum(a, n - 1, n - 1);
      assert BinomSum(a, n - 1, n) == sum + 0 * Pow(a, n);
      assert Pow(a + 1, n) == (a + 1) * sum;
      SuccTimes(a, sum);
    }
  }

  lemma SuccTimes(a: int, s: int)
    ensures (a + 1) * s == s + a * s
  {
  }

  lemma {:induction false} MiddleTerms(p: nat, a: int, k: int)
    requires Prime(p) && 0 <= k < p
    ensures Divides(p, BinomSum(a, p, k) - 1)
    decreases k
  {
    if k == 0 {
      ModOfMultiple(0, p);
    } else {
      MiddleTerms(p, a, k - 1);
      PrimeDividesBinom(p, k);
      DividesProduct(p, Binom(p, k), Pow(a, k));
      DividesCombination(p, BinomSum(a, p, k - 1) - 1, Binom(p, k) * Pow(a, k), 1);
    }
  }

  /** (a + 1)^p ≡ a^p + 1 (mod p) for a prime p. */
  lemma FreshmansDream(p: nat, a: int)
    requires Prime(p)
    ensures Divides(p, Pow(a + 1, p) - Pow(a, p) - 1)
  {
    BinomialTheorem(a, p);
    BinomDiagonal(p);
    MiddleTerms(p, a, p - 1);
  }

  // ---------------------------------------------------------------------------
  // Fermat's little theorem

  lemma {:induction false} FermatLittle(p: nat, a: nat)
    requires Prime(p)
    ensures Divides(p, Pow(a, p) - a)
  {
    if a == 0 {
      ModOfMultiple(0, p);
    } else {
      FermatLittle(p, a - 1);
      FreshmansDream(p, a - 1);
      DividesCombination(p, Pow(a, p) - Pow(a - 1, p) - 1, Pow(a - 1, p) - (a - 1), 1);
    }
  }

  /** a^(p-1) ≡ 1 (mod p) when p does not divide a. */
  lemma FermatUnit(p: nat, a: nat)
    requires Prime(p) && !Divides(p, a)
    ensures Divides(p, Pow(a, p - 1) - 1)
  {
    FermatLittle(p, a);
    assert Pow(a, p) - a == a * (Pow(a, p - 1) - 1);
    EuclidLemma(p, a, Pow(a, p - 1) - 1);
  }

  lemma {:induction false} PowMul(b: int, i: nat, j: nat)
    ensures Pow(b, i * j) == Pow(Pow(b, i), j)
  {
    if j > 0 {
      PowMul(b, i, j - 1);
      assert i * j == i * (j - 1) + i;
      PowAdd(b, i * (j - 1), i);
    }
  }

  lemma {:induction false} PowOne(j: nat)
    ensures Pow(1, j) == 1
  {
    if j > 0 {
      PowOne(j - 1);
    }
  }

  /** Congruent bases give congruent powers. */
  lemma {:induction false} CongruentPow(p: int, x: int, y: int, j: nat)
    requires Divides(p, x - y)
    ensures Divides(p, Pow(x, j) - Pow(y, j))
  {
    if j == 0 {
      ModOfMultiple(0, p);
    } else {
      CongruentPow(p, x, y, j - 1);
      DividesProduct(p, x - y, Pow(y, j - 1));
      assert Pow(x, j) - Pow(y, j)
          == x * (Pow(x, j - 1) - Pow(y, j - 1)) + (x - y) * Pow(y, j - 1);
      DividesCombination(p, Pow(x, j - 1) - Pow(y, j - 1), (x - y) * Pow(y, j - 1), x);
    }
  }

  /** m^(1 + (p-1)*c) ≡ m (mod p) for a prime p, whether or not p divides m. */
  lemma FermatPower(p: nat, m: nat, c: nat)
    requires Prime(p)
    ensures Divides(p, Pow(m, 1 + (p - 1) * c) - m)
  {
    var x := (p - 1) * c;
    assert Pow(m, 1 + x) == m * Pow(m, x);
    if Divides(p, m) {
      DividesProduct(p, m, Pow(m, x));
      DividesCombination(p, m, m * Pow(m, x), -1);
    } else {
      FermatUnit(p, m);
      CongruentPow(p, Pow(m, p - 1), 1, c);
      PowMul(m, p - 1, c);
      PowOne(c);
      DividesProduct(p, Pow(m, x) - 1, m);
      assert (Pow(m, x) - 1) * m == m * Pow(m, x) - m;
    }
  }
}
