/** Mathematical reference definitions shared by the backend and the frontend
    models: divisibility, primality, powers, JavaScript's truncating remainder,
    and the lemmas that connect them to Dafny's Euclidean `%`. */
module Numbers {

  /** k is a positive divisor of x. */
  predicate Divides(k: int, x: int) {
    k > 0 && x % k == 0
  }

  /** The mathematical definition of a prime: greater than one and without a
      divisor strictly between one and itself. */
  ghost predicate Prime(x: int) {
    x > 1 && forall k :: 2 <= k < x ==> !Divides(k, x)
  }

  function Abs(x: int): nat {
    if x < 0 then -x else x
  }

  /** b raised to the power e, over unbounded integers. */
  function Pow(b: int, e: nat): int {
    if e == 0 then 1 else b * Pow(b, e - 1)
  }

  /** JavaScript's `%` on BigInt and on integral Numbers: the remainder of a
      division truncated toward zero, so it takes the sign of the dividend and
      ignores the sign of the divisor. */
  function JsRem(a: int, m: int): (r: int)
    requires m != 0
    ensures Abs(r) < Abs(m)
    ensures a >= 0 ==> r >= 0
    ensures a <= 0 ==> r <= 0
    ensures (a - r) % Abs(m) == 0
  {
    var M: int := Abs(m);
    if a >= 0 then
      var q := a / M;
      assert a - a % M == q * M;
      ModOfMultiple(q, M);
      a % M
    else
      var q := (-a) / M;
      assert a + (-a) % M == (-q) * M;
      ModOfMultiple(-q, M);
      -((-a) % M)
  }

  // ---------------------------------------------------------------------------
  // Euclidean remainder

  /** The quotient and remainder of a Euclidean division are unique. */
  lemma ModUnique(a: int, m: int, q: int, r: int)
    requires m > 0 && 0 <= r < m && a == q * m + r
    ensures a % m == r && a / m == q
  {
    var q', r' := a / m, a % m;
    assert (q - q') * m == r' - r;
    if q > q' {
      MulAtLeast(q - q', m);
    } else if q < q' {
      MulAtLeast(q' - q, m);
    }
  }

  lemma MulAtLeast(k: int, m: int)
    requires k >= 1 && m > 0
    ensures k * m >= m
  {
    assert k * m == (k - 1) * m + m;
    assert (k - 1) * m >= 0;
  }

  lemma ModOfMultiple(k: int, m: int)
    requires m > 0
    ensures (k * m) % m == 0
  {
    ModUnique(k * m, m, k, 0);
  }

  lemma ModAddMultiple(k: int, t: int, m: int)
    requires m > 0
    ensures (k * m + t) % m == t % m
  {
    var q := t / m;
    assert t == q * m + t % m;
    assert k * m + t == (k + q) * m + t % m;
    ModUnique(k * m + t, m, k + q, t % m);
  }

  lemma ModOfSmall(r: int, m: int)
    requires 0 <= r < m
    ensures r % m == r
  {
    ModUnique(r, m, 0, r);
  }

  /** Multiplication commutes with taking Euclidean remainders. */
  lemma ModMulMod(x: int, y: int, m: int)
    requires m > 0
    ensures (x * y) % m == ((x % m) * (y % m)) % m
  {
    var qx, rx := x / m, x % m;
    var qy, ry := y / m, y % m;
    assert x == qx * m + rx;
    assert y == qy * m + ry;
    assert x * y == (qx * qy * m + qx * ry + rx * qy) * m + rx * ry;
    ModAddMultiple(qx * qy * m + qx * ry + rx * qy, rx * ry, m);
  }

  lemma MulAssoc(x: int, y: int, z: int)
    ensures x * y * z == x * (y * z)
  {
  }

  lemma MulComm(x: int, y: int)
    ensures x * y == y * x
  {
  }

  lemma MulLeftComm(x: int, a: int, y: int)
    ensures x * (a * y) == a * (x * y)
  {
  }

  lemma Distribute(x: int, y: int, z: int)
    ensures x * (y + z) == x * y + x * z
  {
  }

  // ---------------------------------------------------------------------------
  // Divisibility

  lemma DividesProduct(k: int, x: int, y: int)
    requires Divides(k, x)
    ensures Divides(k, x * y)
  {
    var u := x / k;
    assert x == u * k;
    assert x * y == (u * y) * k;
    ModOfMultiple(u * y, k);
  }

  lemma DividesTrans(a: int, b: int, x: int)
    requires Divides(a, b) && Divides(b, x)
    ensures Divides(a, x)
  {
    var j := x / b;
    assert x == b * j;
    DividesProduct(a, b, j);
  }

  /** A common divisor of u and v divides every combination k*u + v. */
  lemma DividesCombination(g: int, u: int, v: int, k: int)
    requires Divides(g, u) && Divides(g, v)
    ensures Divides(g, k * u + v)
  {
    var a, b := u / g, v / g;
    assert u == a * g && v == b * g;
    assert k * u + v == (k * a + b) * g;
    ModOfMultiple(k * a + b, g);
  }

  /** A divisor at or below x has its cofactor as a second divisor of x. */
  lemma Cofactor(k: int, x: int) returns (j: int)
    requires x > 1 && 2 <= k < x && Divides(k, x)
    ensures 2 <= j < x && Divides(j, x) && j * k == x
  {
    j := x / k;
    assert x == j * k;
    MulAtMost(j, k);
    assert j >= 2;
    MulAtLeast(k - 1, j);
    assert k * j == x;
    ModOfMultiple(k, j);
  }

  lemma MulAtMost(j: int, k: int)
    requires k > 0
    ensures j <= 1 ==> j * k <= k
  {
    if j <= 1 {
      assert k - j * k == (1 - j) * k;
      assert (1 - j) * k >= 0;
    }
  }

  /** Trial division need not go past the square root: if no number in
      [2, i) divides x and i * i exceeds x, x is prime. */
  lemma NoDivisorBelowRoot(x: int, i: int)
    requires x > 1 && i >= 2 && i * i > x
    requires forall k :: 2 <= k < i ==> !Divides(k, x)
    ensures Prime(x)
  {
    forall k | 2 <= k < x
      ensures !Divides(k, x)
    {
      if Divides(k, x) {
        var j := Cofactor(k, x);
        assert k >= i && j >= i;
        MulMono(j, k, i);
        assert false;
      }
    }
  }

  lemma MulMono(a: int, b: int, i: int)
    requires i >= 0 && a >= i && b >= i
    ensures a * b >= i * i
  {
    assert a * b - i * i == (a - i) * b + i * (b - i);
    assert (a - i) * b >= 0;
    assert i * (b - i) >= 0;
  }

  /** A number congruent to m in [0, n) has remainder m. */
  lemma CongruentToSmall(x: int, m: int, n: int)
    requires Divides(n, x - m) && 0 <= m < n
    ensures x % n == m
  {
    var j := (x - m) / n;
    assert x - m == j * n + (x - m) % n;
    ModUnique(x, n, j, m);
  }

  /** A divisor that is a multiple of d passes d on to x. */
  lemma ComplementFactor(k: int, x: int, d: int)
    requires Divides(k, x) && d > 0 && k % d == 0
    ensures Divides(d, x)
  {
    DividesTrans(d, k, x);
  }

  /** The 6k±1 stepping skips only multiples of 2 and 3: with i = 6j + 5
      and x divisible by neither 2 nor 3, nothing in [i, i + 6) other than
      i and i + 2 can divide x. */
  lemma WheelStep(x: int, i: int, j: int)
    requires i == 6 * j + 5
    requires x % 2 != 0 && x % 3 != 0
    requires !Divides(i, x) && !Divides(i + 2, x)
    ensures forall k :: i <= k < i + 6 ==> !Divides(k, x)
  {
    ModOfMultiple(3 * j + 3, 2);
    ModOfMultiple(3 * j + 4, 2);
    ModOfMultiple(3 * j + 5, 2);
    ModOfMultiple(2 * j + 3, 3);
    forall k | i <= k < i + 6
      ensures !Divides(k, x)
    {
      if Divides(k, x) {
        if k == i + 1 || k == i + 3 || k == i + 5 {
          ComplementFactor(k, x, 2);
        } else if k == i + 4 {
          ComplementFactor(k, x, 3);
        }
      }
    }
  }

  /** A trial divisor i >= 5 whose square is at most x lies, with i + 2,
      strictly below x. */
  lemma BelowSquare(i: int, x: int)
    requires i >= 5 && i * i <= x
    ensures i + 2 < x
  {
    assert i * i == (i - 5) * i + 5 * i;
    NonNegativeProduct(i - 5, i);
  }

  // ---------------------------------------------------------------------------
  // Powers

  lemma {:induction false} PowAdd(b: int, i: nat, j: nat)
    ensures Pow(b, i + j) == Pow(b, i) * Pow(b, j)
  {
    if i > 0 {
      PowAdd(b, i - 1, j);
    }
  }

  lemma {:induction false} PowOfSquare(b: int, k: nat)
    ensures Pow(b * b, k) == Pow(b, 2 * k)
  {
    if k > 0 {
      PowOfSquare(b, k - 1);
      assert Pow(b, 2 * k) == b * (b * Pow(b, 2 * k - 2));
    }
  }

  /** One square-and-multiply step: b^e is (b if e is odd, else 1) times
      (b*b)^(e/2). */
  lemma PowHalve(b: int, e: nat)
    ensures Pow(b, e) == (if e % 2 == 1 then b else 1) * Pow(b * b, e / 2)
  {
    PowOfSquare(b, e / 2);
    if e % 2 == 1 {
      assert Pow(b, e) == b * Pow(b, e - 1);
      assert e - 1 == 2 * (e / 2);
    } else {
      assert e == 2 * (e / 2);
    }
  }

  lemma {:induction false} PowNonNegative(b: int, e: nat)
    requires b >= 0
    ensures Pow(b, e) >= 0
  {
    if e > 0 {
      PowNonNegative(b, e - 1);
    }
  }

  // ---------------------------------------------------------------------------
  // Truncating remainder

  /** On a non-negative dividend and a positive divisor the truncating
      remainder is Dafny's Euclidean one. */
  lemma JsRemNonNegative(a: int, m: int)
    requires a >= 0 && m > 0
    ensures JsRem(a, m) == a % m
  {
  }

  lemma JsRemIdempotent(a: int, m: int)
    requires m != 0
    ensures JsRem(JsRem(a, m), m) == JsRem(a, m)
  {
    var M: int := Abs(m);
    if a >= 0 {
      ModOfSmall(a % M, M);
    } else {
      ModOfSmall((-a) % M, M);
    }
  }

  /** Truncating remainder of a value known to be non-positive. */
  lemma JsRemNonPositive(z: int, m: int)
    requires z <= 0 && m != 0
    ensures JsRem(z, m) == -((-z) % Abs(m))
  {
  }

  /** Multiplication commutes with the truncating remainder as well: both
      sides carry the sign of a*b and agree modulo m. */
  lemma JsRemMul(a: int, b: int, m: int)
    requires m != 0
    ensures JsRem(a * b, m) == JsRem(JsRem(a, m) * JsRem(b, m), m)
  {
    if (a >= 0) == (b >= 0) {
      JsRemMulSameSign(a, b, m);
    } else if a < 0 {
      JsRemMulOppositeSign(a, b, m);
    } else {
      JsRemMulOppositeSign(b, a, m);
      MulComm(a, b);
      MulComm(JsRem(a, m), JsRem(b, m));
    }
  }

  lemma JsRemMulSameSign(a: int, b: int, m: int)
    requires m != 0 && (a >= 0) == (b >= 0)
    ensures JsRem(a * b, m) == JsRem(JsRem(a, m) * JsRem(b, m), m)
  {
    var M: int := Abs(m);
    var x: int, y: int := Abs(a), Abs(b);
    SameSignProduct(a, b, m);
    NonNegativeProduct(x, y);
    NonNegativeProduct(x % M, y % M);
    ModMulMod(x, y, M);
  }

  lemma JsRemMulOppositeSign(a: int, b: int, m: int)
    requires m != 0 && a < 0 <= b
    ensures JsRem(a * b, m) == JsRem(JsRem(a, m) * JsRem(b, m), m)
  {
    var M: int := Abs(m);
    var x: int, y: int := Abs(a), Abs(b);
    OppositeSignProduct(a, b, m);
    ModMulMod(x, y, M);
  }

  lemma NonNegativeProduct(x: int, y: int)
    requires x >= 0 && y >= 0
    ensures x * y >= 0
  {
  }

  lemma SameSignProduct(a: int, b: int, m: int)
    requires m != 0 && (a >= 0) == (b >= 0)
    ensures a * b == Abs(a) * Abs(b)
    ensures JsRem(a, m) * JsRem(b, m) == (Abs(a) % Abs(m)) * (Abs(b) % Abs(m))
  {
    if a < 0 {
      assert a * b == (-a) * (-b);
      assert JsRem(a, m) * JsRem(b, m) == (-JsRem(a, m)) * (-JsRem(b, m));
    }
  }

  lemma OppositeSignProduct(a: int, b: int, m: int)
    requires m != 0 && a < 0 <= b
    ensures JsRem(a * b, m) == -((Abs(a) * Abs(b)) % Abs(m))
    ensures JsRem(JsRem(a, m) * JsRem(b, m), m) == -(((Abs(a) % Abs(m)) * (Abs(b) % Abs(m))) % Abs(m))
  {
    var M: int := Abs(m);
    var x: int, y: int := -a, b;
    var u, v := x % M, y % M;
    assert JsRem(a, m) == -u && JsRem(b, m) == v;
    assert JsRem(a, m) * JsRem(b, m) == -(u * v);
    assert a * b == -(x * y);
    NonNegativeProduct(x, y);
    NonNegativeProduct(u, v);
    JsRemNonPositive(a * b, m);
    JsRemNonPositive(-(u * v), m);
  }

  /** Factors that agree under the truncating remainder give products that
      agree under it. */
  lemma JsRemMulCongruent(a: int, a': int, c: int, c': int, m: int)
    requires m != 0
    requires JsRem(a, m) == JsRem(a', m) && JsRem(c, m) == JsRem(c', m)
    ensures JsRem(a * c, m) == JsRem(a' * c', m)
  {
    JsRemMul(a, c, m);
    JsRemMul(a', c', m);
  }

  /** Reducing the base first does not change the reduced power. */
  lemma {:induction false} JsRemPow(b: int, e: nat, m: int)
    requires m != 0
    ensures JsRem(Pow(JsRem(b, m), e), m) == JsRem(Pow(b, e), m)
  {
    if e > 0 {
      JsRemPow(b, e - 1, m);
      JsRemIdempotent(b, m);
      JsRemMulCongruent(JsRem(b, m), b, Pow(JsRem(b, m), e - 1), Pow(b, e - 1), m);
    }
  }
}
