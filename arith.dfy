/** Integer arithmetic shared by the number-theory engine and the RSA layer:
    powers, divisibility, greatest common divisors, and the laws of the
    remainder.  Dafny's `%` is Euclidean (never negative, and it only depends
    on the magnitude of the divisor), which is exactly what GMP's `mpz_mod`
    computes, so the model uses `%` wherever the C code calls `mpz_mod`. */
module Arith {

  function Abs(x: int): nat
  {
    if x < 0 then -x else x
  }

  /** x to the k-th power. */
  function Pow(x: int, k: nat): int
    decreases k
  {
    if k == 0 then 1 else x * Pow(x, k - 1)
  }

  /** 2 to the k-th power, as a natural number (to serve as an exponent). */
  function Pow2(k: nat): (r: nat)
    ensures r >= 1
  {
    PowPositive(2, k);
    Pow(2, k)
  }

  /** d is a positive divisor of x. */
  ghost predicate Divides(d: int, x: int)
  {
    d > 0 && x % d == 0
  }

  /** g is the greatest common divisor of a and b: it is positive and its
      divisors are exactly the common divisors of a and b. */
  ghost predicate IsGcd(g: int, a: int, b: int)
  {
    g > 0 && forall d :: Divides(d, a) && Divides(d, b) <==> Divides(d, g)
  }

  /** a and b have no common divisor but 1. */
  ghost predicate Coprime(a: int, b: int)
  {
    IsGcd(1, a, b)
  }

  // ---------------------------------------------------------------------
  // The remainder

  /** Quotient and remainder of Euclidean division are unique. */
  lemma ModUnique(x: int, n: int, q: int, r: int)
    requires n > 0 && 0 <= r < n && x == q * n + r
    ensures x % n == r && x / n == q
  {
    var q0, r0 := x / n, x % n;
    assert q0 * n + r0 == q * n + r;
    if q0 < q {
      MulMonotone(q0 + 1, q, n);
      assert false;
    } else if q < q0 {
      MulMonotone(q + 1, q0, n);
      assert false;
    }
  }

  lemma MulMonotone(a: int, b: int, n: int)
    requires a <= b && n >= 0
    ensures a * n <= b * n
  {
    assert b * n - a * n == (b - a) * n;
  }

  lemma ModAddMultiple(x: int, k: int, n: int)
    requires n > 0
    ensures (x + k * n) % n == x % n
  {
    assert x + k * n == (x / n + k) * n + x % n;
    ModUnique(x + k * n, n, x / n + k, x % n);
  }

  lemma ModOfMod(x: int, n: int)
    requires n > 0
    ensures (x % n) % n == x % n
  {
    ModUnique(x % n, n, 0, x % n);
  }

  /** The remainder by n and by -n agree (as for `mpz_mod`). */
  lemma ModAbs(x: int, n: int)
    requires n != 0
    ensures x % n == x % Abs(n)
  {
    if n < 0 {
      assert x == (-(x / n)) * Abs(n) + x % n;
      ModUnique(x, Abs(n), -(x / n), x % n);
    }
  }

  lemma ModMulLeft(x: int, y: int, n: int)
    requires n > 0
    ensures ((x % n) * y) % n == (x * y) % n
  {
    assert x * y == (x % n) * y + ((x / n) * y) * n by {
      assert x == (x / n) * n + x % n;
    }
    ModAddMultiple((x % n) * y, (x / n) * y, n);
  }

  lemma ModMulRight(x: int, y: int, n: int)
    requires n > 0
    ensures (x * (y % n)) % n == (x * y) % n
  {
    ModMulLeft(y, x, n);
  }

  lemma ModMul(x: int, y: int, n: int)
    requires n > 0
    ensures ((x % n) * (y % n)) % n == (x * y) % n
  {
    ModMulLeft(x, y % n, n);
    ModMulRight(x, y, n);
  }

  lemma ModAdd(x: int, y: int, n: int)
    requires n > 0
    ensures ((x % n) + (y % n)) % n == (x + y) % n
  {
    assert x + y == (x % n) + (y % n) + (x / n + y / n) * n;
    ModAddMultiple((x % n) + (y % n), x / n + y / n, n);
  }

  /** Two numbers with the same remainder differ by a multiple of n. */
  lemma ModEqDiff(x: int, y: int, n: int)
    requires n > 0
    ensures x % n == y % n <==> (x - y) % n == 0
  {
    if x % n == y % n {
      assert x - y == (x / n - y / n) * n;
      ModUnique(x - y, n, x / n - y / n, 0);
    }
    if (x - y) % n == 0 {
      assert x == y + ((x - y) / n) * n;
      ModAddMultiple(y, (x - y) / n, n);
    }
  }

  // ---------------------------------------------------------------------
  // Divisibility

  lemma DividesMultiple(d: int, k: int)
    requires d > 0
    ensures Divides(d, d * k)
  {
    ModUnique(d * k, d, k, 0);
  }

  lemma DividesLinear(d: int, x: int, y: int, c: int)
    requires Divides(d, x) && Divides(d, y)
    ensures Divides(d, x + c * y)
  {
    var kx, ky := x / d, y / d;
    assert x == d * kx && y == d * ky;
    assert x + c * y == d * (kx + c * ky);
    DividesMultiple(d, kx + c * ky);
  }

  lemma DividesLe(d: int, x: int)
    requires Divides(d, x) && x > 0
    ensures d <= x
  {
    var k := x / d;
    assert x == k * d;
    if k <= 0 {
      MulMonotone(k, 0, d);
      assert false;
    }
    MulMonotone(1, k, d);
  }

  lemma DividesSelf(d: int)
    requires d > 0
    ensures Divides(d, d)
  {
    DividesMultiple(d, 1);
  }

  /** Replacing (a, b) by (b, a - q*b) keeps the common divisors: the step
      of Euclid's algorithm, whatever the quotient q. */
  lemma {:induction false} CommonDivisorsStep(a: int, b: int, q: int, d: int)
    ensures Divides(d, a) && Divides(d, b) <==> Divides(d, b) && Divides(d, a - q * b)
  {
    var r := a - q * b;
    assert a + (-q) * b == r && r + q * b == a;
    if Divides(d, a) && Divides(d, b) {
      DividesLinear(d, a, b, -q);
    }
    if Divides(d, b) && Divides(d, r) {
      DividesLinear(d, r, b, q);
    }
  }

  /** The greatest common divisor is unique. */
  lemma GcdUnique(g1: int, g2: int, a: int, b: int)
    requires IsGcd(g1, a, b) && IsGcd(g2, a, b)
    ensures g1 == g2
  {
    DividesSelf(g1);
    DividesSelf(g2);
    assert Divides(g1, g2);
    assert Divides(g2, g1);
    DividesLe(g1, g2);
    DividesLe(g2, g1);
  }

  /** When the common divisors of a and b are those of r and 0, r is their gcd. */
  lemma GcdOfZero(r: int, a: int, b: int)
    requires r > 0
    requires forall d :: Divides(d, a) && Divides(d, b) <==> Divides(d, r) && Divides(d, 0)
    ensures IsGcd(r, a, b)
  {
    forall d
      ensures Divides(d, a) && Divides(d, b) <==> Divides(d, r)
    {
      if d > 0 {
        assert 0 % d == 0;
      }
    }
  }

  // ---------------------------------------------------------------------
  // Powers

  lemma {:induction false} PowAdd(x: int, i: nat, j: nat)
    ensures Pow(x, i + j) == Pow(x, i) * Pow(x, j)
    decreases i
  {
    if i > 0 {
      PowAdd(x, i - 1, j);
      assert Pow(x, i + j) == x * Pow(x, i - 1 + j);
    }
  }

  lemma {:induction false} PowMul(x: int, i: nat, j: nat)
    ensures Pow(x, i * j) == Pow(Pow(x, i), j)
    decreases j
  {
    if j > 0 {
      PowMul(x, i, j - 1);
      assert i * j == i * (j - 1) + i;
      PowAdd(x, i * (j - 1), i);
    }
  }

  lemma {:induction false} PowPositive(x: int, k: nat)
    requires x > 0
    ensures Pow(x, k) > 0
    decreases k
  {
    if k > 0 {
      PowPositive(x, k - 1);
    }
  }

  lemma {:induction false} PowOne(k: nat)
    ensures Pow(1, k) == 1
    decreases k
  {
    if k > 0 {
      PowOne(k - 1);
    }
  }

  lemma {:induction false} PowMonotone(x: int, i: nat, j: nat)
    requires x >= 1 && i <= j
    ensures Pow(x, i) <= Pow(x, j)
    decreases j - i
  {
    if i < j {
      PowMonotone(x, i, j - 1);
      PowPositive(x, j - 1);
      assert Pow(x, j) == x * Pow(x, j - 1) >= 1 * Pow(x, j - 1);
    }
  }

  lemma PowSquare(x: int)
    ensures Pow(x, 2) == x * x
  {
    assert Pow(x, 1) == x;
  }

  /** Powers respect congruence of the base. */
  lemma {:induction false} PowModBase(x: int, k: nat, n: int)
    requires n > 0
    ensures Pow(x % n, k) % n == Pow(x, k) % n
    decreases k
  {
    if k > 0 {
      PowModBase(x, k - 1, n);
      calc {
        Pow(x % n, k) % n;
        ((x % n) * Pow(x % n, k - 1)) % n;
        { ModMulRight(x % n, Pow(x % n, k - 1), n); }
        ((x % n) * (Pow(x % n, k - 1) % n)) % n;
        ((x % n) * (Pow(x, k - 1) % n)) % n;
        { ModMul(x, Pow(x, k - 1), n); }
        (x * Pow(x, k - 1)) % n;
      }
    }
  }

  /** A positive power of a multiple of n is a multiple of n. */
  lemma PowOfMultiple(x: int, k: nat, n: int)
    requires n > 0 && k > 0 && x % n == 0
    ensures Pow(x, k) % n == 0
  {
    var q, rest := x / n, Pow(x, k - 1);
    assert x == q * n;
    assert Pow(x, k) == x * rest == (q * rest) * n;
    ModUnique(Pow(x, k), n, q * rest, 0);
  }
}
