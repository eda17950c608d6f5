/** The modular inverse that the backend takes from the `bigint-mod-arith`
    package, supplied here as an explicit extended Euclidean algorithm. */
module ModArith {
  import opened Numbers
  import opened Wrappers

  /** d is a multiplicative inverse of a modulo n. */
  ghost predicate IsModInverse(a: int, d: int, n: int) {
    n > 0 && (a * d) % n == 1 % n
  }

  /** a has an inverse modulo n. */
  ghost predicate Invertible(a: int, n: int) {
    exists d :: IsModInverse(a, d, n)
  }

  /** Euclid's greatest common divisor. */
  function Gcd(x: nat, y: nat): nat
    decreases y
  {
    if y == 0 then x else Gcd(y, x % y)
  }

  lemma {:induction false} GcdDivides(x: nat, y: nat)
    requires x > 0
    ensures Divides(Gcd(x, y), x) && Divides(Gcd(x, y), y)
    decreases y
  {
    if y == 0 {
      ModOfMultiple(1, x);
      ModOfMultiple(0, x);
    } else {
      GcdDivides(y, x % y);
      var g := Gcd(y, x % y);
      assert x == (x / y) * y + x % y;
      DividesCombination(g, y, x % y, x / y);
    }
  }

  /** A common factor above one rules out an inverse. */
  lemma CommonFactorBlocksInverse(a: int, n: int, g: int, d: int)
    requires g > 1 && Divides(g, a) && Divides(g, n)
    ensures !IsModInverse(a, d, n)
  {
    if IsModInverse(a, d, n) {
      DividesBound(g, n);
      ModOfSmall(1, n);
      var q := (a * d) / n;
      assert a * d == q * n + 1;
      DividesProduct(g, a, d);
      DividesCombination(g, n, a * d, -q);
      assert (-q) * n + a * d == 1;
      ModOfSmall(1, g);
    }
  }

  lemma DividesBound(g: int, n: int)
    requires Divides(g, n) && n > 0
    ensures g <= n
  {
    var k := n / g;
    assert n == k * g;
    SignOfProduct(k, g);
  }

  lemma SignOfProduct(k: int, g: int)
    requires g > 0
    ensures k <= 0 ==> k * g <= 0
    ensures k <= -1 ==> k * g <= -g
    ensures k >= 1 ==> k * g >= g
  {
    if k <= -1 {
      MulAtLeast(-k, g);
      assert k * g == -((-k) * g);
    } else if k <= 0 {
      assert k * g == -((-k) * g);
      assert (-k) * g >= 0;
    } else {
      MulAtLeast(k, g);
    }
  }

  /** When Euclid's algorithm ends on a gcd other than one, no inverse
      exists. */
  lemma NoInverseUnlessCoprime(a: int, n: int)
    requires n > 0 && Gcd(n, a % n) != 1
    ensures !Invertible(a, n)
  {
    var g := Gcd(n, a % n);
    GcdDivides(n, a % n);
    assert a == (a / n) * n + a % n;
    DividesCombination(g, n, a % n, a / n);
    forall d
      ensures !IsModInverse(a, d, n)
    {
      CommonFactorBlocksInverse(a, n, g, d);
    }
  }

  /** One step of the extended algorithm keeps the Bezout identity. */
  lemma BezoutStep(a: int, n: int, r0: int, r1: int, s0: int, s1: int, t0: int, t1: int)
    requires r1 > 0
    requires r0 == s0 * n + t0 * a && r1 == s1 * n + t1 * a
    ensures r0 % r1 == (s0 - (r0 / r1) * s1) * n + (t0 - (r0 / r1) * t1) * a
  {
    var q := r0 / r1;
    assert r0 == q * r1 + r0 % r1;
    assert q * r1 == (q * s1) * n + (q * t1) * a;
  }

  /** An inverse in [0, n) is unique. */
  lemma InverseUnique(a: int, d1: int, d2: int, n: int)
    requires IsModInverse(a, d1, n) && IsModInverse(a, d2, n)
    requires 0 <= d1 < n && 0 <= d2 < n
    ensures d1 == d2
  {
    SameRemainder(a * d1, 1, n);
    SameRemainder(a * d2, 1, n);
    DividesProduct(n, a * d2 - 1, -d1);
    DividesCombination(n, a * d1 - 1, (a * d2 - 1) * (-d1), d2);
    assert d2 * (a * d1 - 1) + (a * d2 - 1) * (-d1) == d1 - d2;
    CongruentToSmall(d1, d2, n);
    ModOfSmall(d1, n);
  }

  lemma SameRemainder(x: int, y: int, n: int)
    requires n > 0 && x % n == y % n
    ensures Divides(n, x - y)
  {
    var qx, qy := x / n, y / n;
    assert x - y == (qx - qy) * n;
    ModOfMultiple(qx - qy, n);
  }

  /** Bezout coefficients with 1 give the inverse. */
  lemma BezoutInverse(a: int, n: int, s: int, t: int)
    requires n > 0 && s * n + t * a == 1
    ensures IsModInverse(a, t % n, n)
  {
    ModMulMod(a, t % n, n);
    ModOfSmall(t % n, n);
    ModMulMod(a, t, n);
    assert a * t == (-s) * n + 1;
    ModAddMultiple(-s, 1, n);
  }

  /** The inverse of a modulo n, in [0, n), or None when there is none
      (including every n <= 0), as `modInv` throws in that case. */
  method ModInv(a: int, n: int) returns (r: Option<int>)
    ensures r.Some? ==> 0 <= r.value < n && IsModInverse(a, r.value, n)
    ensures r.None? ==> !Invertible(a, n)
  {
    if n <= 0 {
      return None;
    }
    var r0, r1 := n, a % n;
    var t0, t1 := 0, 1;
    ghost var s0, s1 := 1, -(a / n);
    assert a == (a / n) * n + a % n;
    while r1 != 0
      invariant r0 > 0 && r1 >= 0
      invariant Gcd(r0, r1) == Gcd(n, a % n)
      invariant r0 == s0 * n + t0 * a && r1 == s1 * n + t1 * a
      decreases r1
    {
      var q := r0 / r1;
      BezoutStep(a, n, r0, r1, s0, s1, t0, t1);
      r0, r1 := r1, r0 % r1;
      s0, s1 := s1, s0 - q * s1;
      t0, t1 := t1, t0 - q * t1;
    }
    if r0 != 1 {
      NoInverseUnlessCoprime(a, n);
      return None;
    }
    BezoutInverse(a, n, s0, t0);
    return Some(t0 % n);
  }
}
