/** Elementary theory of prime numbers that the correctness of Miller–Rabin
    and of textbook RSA rests on: Euclid's lemma, Fermat's little theorem
    (through the binomial theorem), the square roots of 1 modulo a prime, and
    the exponent identity m^(e*d) = m (mod p*q). */
module Primes {
  import opened Arith

  ghost predicate IsPrimeNumber(p: int)
  {
    p >= 2 && forall d :: 2 <= d < p ==> p % d != 0
  }

  // ---------------------------------------------------------------------
  // Euclid's lemma

  lemma {:induction false} EuclidReduced(p: int, x: int, y: int)
    requires IsPrimeNumber(p) && 0 < x < p && (x * y) % p == 0
    ensures y % p == 0
    decreases x
  {
    if x > 1 {
      var q, r := p / x, p % x;
      assert r != 0;
      var m := (x * y) / p;
      assert x * y == m * p;
      assert p == q * x + r;
      assert r * y == p * y - q * (x * y);
      assert r * y == (y - q * m) * p;
      ModUnique(r * y, p, y - q * m, 0);
      EuclidReduced(p, r, y);
    }
  }

  /** A prime dividing a product divides one of its factors. */
  lemma Euclid(p: int, x: int, y: int)
    requires IsPrimeNumber(p) && (x * y) % p == 0
    ensures x % p == 0 || y % p == 0
  {
    if x % p != 0 {
      ModMulLeft(x, y, p);
      EuclidReduced(p, x % p, y);
    }
  }

  /** Distinct primes dividing x: their product divides x. */
  lemma TwoPrimesDivide(p: int, q: int, x: int)
    requires IsPrimeNumber(p) && IsPrimeNumber(q) && p != q
    requires x % p == 0 && x % q == 0
    ensures x % (p * q) == 0
  {
    var k := x / p;
    assert x == p * k;
    assert p % q != 0 by {
      if q > p {
        ModUnique(p, q, 0, p);
      }
    }
    Euclid(q, p, k);
    var j := k / q;
    assert k == q * j;
    assert x == j * (p * q);
    MulMonotone(2, q, p);
    ModUnique(x, p * q, j, 0);
  }

  // ---------------------------------------------------------------------
  // Binomial coefficients

  function Binom(n: nat, k: nat): nat
  {
    if k == 0 then 1 else if n == 0 then 0 else Binom(n - 1, k - 1) + Binom(n - 1, k)
  }

  lemma {:induction false} BinomBeyond(n: nat, k: nat)
    requires k > n
    ensures Binom(n, k) == 0
    decreases n
  {
    if n > 0 {
      BinomBeyond(n - 1, k - 1);
      BinomBeyond(n - 1, k);
    }
  }

  lemma {:induction false} BinomSelf(n: nat)
    ensures Binom(n, n) == 1
    decreases n
  {
    if n > 0 {
      BinomSelf(n - 1);
      BinomBeyond(n - 1, n);
    }
  }

  lemma {:induction false} BinomOne(n: nat)
    ensures Binom(n, 1) == n
    decreases n
  {
    if n > 0 {
      BinomOne(n - 1);
    }
  }

  /** k * C(n, k) = n * C(n - 1, k - 1). */
  lemma {:induction false} Absorption(n: nat, k: nat)
    requires n >= 1 && k >= 1
    ensures k * Binom(n, k) == n * Binom(n - 1, k - 1)
    decreases n
  {
    if k == 1 {
      BinomOne(n);
    } else if n == 1 {
      BinomBeyond(0, k - 1);
      BinomBeyond(0, k);
      BinomBeyond(1, k);
    } else {
      Absorption(n - 1, k - 1);
      Absorption(n - 1, k);
      AbsorptionStep(n, k, Binom(n - 2, k - 2), Binom(n - 2, k - 1), Binom(n - 1, k));
    }
  }

  /** The arithmetic of the inductive step of Absorption, with
      a = C(n-2, k-2), b = C(n-2, k-1) and c = C(n-1, k). */
  lemma AbsorptionStep(n: int, k: int, a: int, b: int, c: int)
    requires (k - 1) * (a + b) == (n - 1) * a
    requires k * c == (n - 1) * b
    ensures k * ((a + b) + c) == n * (a + b)
  {
    calc {
      k * ((a + b) + c);
      k * (a + b) + k * c;
      (k - 1) * (a + b) + (a + b) + k * c;
      (n - 1) * a + (a + b) + (n - 1) * b;
      (n - 1) * (a + b) + (a + b);
      n * (a + b);
    }
  }

  /** C(p, k) is a multiple of p for a prime p and 0 < k < p. */
  lemma PrimeDividesBinom(p: int, k: nat)
    requires IsPrimeNumber(p) && 0 < k < p
    ensures Binom(p, k) % p == 0
  {
    Absorption(p, k);
    DividesMultiple(p, Binom(p - 1, k - 1));
    Euclid(p, k, Binom(p, k));
    ModUnique(k, p, 0, k);
  }

  /** The sum over i = 0..m of C(n, i) * x^i. */
  function BinomSum(n: nat, x: int, m: nat): int
  {
    if m == 0 then 1 else BinomSum(n, x, m - 1) + Binom(n, m) * Pow(x, m)
  }

  lemma {:induction false} PascalSum(n: nat, x: int, m: nat)
    requires m >= 1
    ensures BinomSum(n + 1, x, m) == BinomSum(n, x, m) + x * BinomSum(n, x, m - 1)
    decreases m
  {
    assert Pow(x, m) == x * Pow(x, m - 1);
    if m == 1 {
      assert Pow(x, 1) == x;
      assert Binom(n + 1, 1) == 1 + Binom(n, 1);
      assert BinomSum(n + 1, x, 1) == 1 + (1 + Binom(n, 1)) * x;
      assert BinomSum(n, x, 1) == 1 + Binom(n, 1) * x;
    } else {
      PascalSum(n, x, m - 1);
      assert Binom(n + 1, m) == Binom(n, m - 1) + Binom(n, m);
      PascalStep(BinomSum(n + 1, x, m - 1), BinomSum(n, x, m - 1), BinomSum(n, x, m - 2),
                 Binom(n, m - 1), Binom(n, m), x, Pow(x, m - 1));
    }
  }

  /** The arithmetic of the inductive step of PascalSum. */
  lemma PascalStep(s1': int, s1: int, s2: int, b1: int, b0: int, x: int, y: int)
    requires s1' == s1 + x * s2 && s1 == s2 + b1 * y
    ensures s1' + (b1 + b0) * (x * y) == (s1 + b0 * (x * y)) + x * s1
  {
    calc {
      s1' + (b1 + b0) * (x * y);
      s1 + x * s2 + b1 * (x * y) + b0 * (x * y);
      s1 + b0 * (x * y) + x * (s2 + b1 * y);
    }
  }

  /** (x + 1)^n = sum over i = 0..n of C(n, i) * x^i. */
  lemma {:induction false} BinomialTheorem(n: nat, x: int)
    ensures Pow(x + 1, n) == BinomSum(n, x, n)
    decreases n
  {
    if n > 0 {
      var sum := BinomSum(n - 1, x, n - 1);
      BinomialTheorem(n - 1, x);
      PascalSum(n - 1, x, n);
      BinomBeyond(n - 1, n);
      assert BinomSum(n - 1, x, n) == sum;
      calc {
        Pow(x + 1, n);
        (x + 1) * Pow(x + 1, n - 1);
        (x + 1) * sum;
        sum + x * sum;
      }
    }
  }

  lemma {:induction false} BinomSumModPrime(p: int, x: int, m: nat)
    requires IsPrimeNumber(p) && m < p
    ensures BinomSum(p, x, m) % p == 1
    decreases m
  {
    if m == 0 {
      ModUnique(1, p, 0, 1);
    } else {
      BinomSumModPrime(p, x, m - 1);
      PrimeDividesBinom(p, m);
      var c := Binom(p, m) / p;
      assert Binom(p, m) == c * p;
      assert Binom(p, m) * Pow(x, m) == (c * Pow(x, m)) * p;
      ModAddMultiple(BinomSum(p, x, m - 1), c * Pow(x, m), p);
    }
  }

  /** (x + 1)^p = x^p + 1 (mod p). */
  lemma FreshmanDream(p: int, x: int)
    requires IsPrimeNumber(p)
    ensures Pow(x + 1, p) % p == (Pow(x, p) + 1) % p
  {
    BinomialTheorem(p, x);
    BinomSumModPrime(p, x, p - 1);
    BinomSelf(p);
    assert BinomSum(p, x, p) == BinomSum(p, x, p - 1) + Pow(x, p);
    ModAdd(BinomSum(p, x, p - 1), Pow(x, p), p);
    ModUnique(1, p, 0, 1);
    ModAdd(1, Pow(x, p), p);
  }

  // ---------------------------------------------------------------------
  // Fermat's little theorem

  lemma {:induction false} FermatPow(p: int, x: nat)
    requires IsPrimeNumber(p)
    ensures Pow(x, p) % p == x % p
    decreases x
  {
    if x == 0 {
      assert Pow(0, p) == 0 * Pow(0, p - 1);
    } else {
      FermatPow(p, x - 1);
      FreshmanDream(p, x - 1);
      ModAdd(Pow(x - 1, p), 1, p);
      ModAdd(x - 1, 1, p);
    }
  }

  /** a^(p-1) = 1 (mod p) when the prime p does not divide a. */
  lemma Fermat(p: int, a: nat)
    requires IsPrimeNumber(p) && a % p != 0
    ensures Pow(a, p - 1) % p == 1
  {
    FermatPow(p, a);
    assert Pow(a, p) == a * Pow(a, p - 1);
    ModEqDiff(a * Pow(a, p - 1), a, p);
    assert a * Pow(a, p - 1) - a == a * (Pow(a, p - 1) - 1);
    Euclid(p, a, Pow(a, p - 1) - 1);
    ModUnique(1, p, 0, 1);
    ModEqDiff(Pow(a, p - 1), 1, p);
  }

  /** The only square roots of 1 modulo a prime are 1 and p - 1. */
  lemma SquareRootOfOne(p: int, y: int)
    requires IsPrimeNumber(p) && 0 <= y < p && (y * y) % p == 1
    ensures y == 1 || y == p - 1
  {
    ModUnique(1, p, 0, 1);
    ModEqDiff(y * y, 1, p);
    assert y * y - 1 == (y - 1) * (y + 1);
    Euclid(p, y - 1, y + 1);
    assert y != 0;
    if y + 1 < p {
      ModUnique(y - 1, p, 0, y - 1);
      ModUnique(y + 1, p, 0, y + 1);
    }
  }

  // ---------------------------------------------------------------------
  // The RSA exponent identity

  /** x = 1 (mod n) implies x^j = 1 (mod n). */
  lemma PowCongruentOne(x: int, j: nat, n: int)
    requires n > 1 && x % n == 1
    ensures Pow(x, j) % n == 1
  {
    PowModBase(x, j, n);
    PowOne(j);
    ModUnique(1, n, 0, 1);
  }

  /** m^(k(p-1)+1) = m (mod p) for a prime p and every m >= 0. */
  lemma FermatExponent(p: int, m: nat, k: nat, e: nat)
    requires IsPrimeNumber(p) && e == k * (p - 1) + 1
    ensures Pow(m, e) % p == m % p
  {
    var e1 := (p - 1) * k;
    assert e == e1 + 1;
    PowAdd(m, e1, 1);
    assert Pow(m, 1) == m;
    if m % p == 0 {
      PowOfMultiple(m, e, p);
    } else {
      Fermat(p, m);
      PowMul(m, p - 1, k);
      PowCongruentOne(Pow(m, p - 1), k, p);
      ModMul(Pow(m, e1), m, p);
      ModOfMod(m, p);
    }
  }

  /** An exponent congruent to 1 modulo a multiple of p - 1 fixes every m
      modulo the prime p. */
  lemma ExponentModPrime(p: int, other: int, ed: nat, m: nat)
    requires IsPrimeNumber(p) && other >= 1
    requires ed % ((p - 1) * other) == 1
    ensures Pow(m, ed) % p == m % p
  {
    var t := (p - 1) * other;
    assert t >= 1 by {
      MulMonotone(1, p - 1, other);
    }
    var k := ed / t;
    assert ed == k * t + 1;
    assert k >= 0 by {
      if k < 0 {
        MulMonotone(k, -1, t);
        assert false;
      }
    }
    assert k * t == (k * other) * (p - 1);
    FermatExponent(p, m, k * other, ed);
  }

  /** For n = p*q with distinct primes, an exponent congruent to 1 modulo
      (p-1)(q-1) fixes every m in [0, n). */
  lemma RsaIdentity(p: int, q: int, ed: nat, m: nat)
    requires IsPrimeNumber(p) && IsPrimeNumber(q) && p != q
    requires ed % ((p - 1) * (q - 1)) == 1
    requires m < p * q
    ensures Pow(m, ed) % (p * q) == m
  {
    ExponentModPrime(p, q - 1, ed, m);
    assert (q - 1) * (p - 1) == (p - 1) * (q - 1);
    ExponentModPrime(q, p - 1, ed, m);
    var x := Pow(m, ed);
    ModEqDiff(x, m, p);
    ModEqDiff(x, m, q);
    TwoPrimesDivide(p, q, x - m);
    MulMonotone(2, q, p);
    ModEqDiff(x, m, p * q);
    ModUnique(m, p * q, 0, m);
  }
}
