/** The number-theory engine of the RSA library (encryption/c_files/numtheory.c):
    Euclid's algorithm, the modular inverse by the extended algorithm, modular
    exponentiation by repeated squaring, the Miller-Rabin test and the
    rejection loop that draws primes.  Every GMP integer is an `int`. */
module NumTheory {
  import opened Arith
  import opened Primes
  import opened Gmp

  datatype Option<T> = None | Some(value: T)

  // ---------------------------------------------------------------------
  // gcd

  /** (a, b) and (c, d) have the same common divisors. */
  ghost predicate SameCommonDivisors(a: int, b: int, c: int, d: int)
  {
    forall x :: Divides(x, a) && Divides(x, b) <==> Divides(x, c) && Divides(x, d)
  }

  /** Replacing (c, d) by (d, c - q*d) keeps the common divisors. */
  lemma EuclidStep(a: int, b: int, c: int, d: int, q: int)
    requires SameCommonDivisors(a, b, c, d)
    ensures SameCommonDivisors(a, b, d, c - q * d)
  {
    forall x
      ensures Divides(x, c) && Divides(x, d) <==> Divides(x, d) && Divides(x, c - q * d)
    {
      CommonDivisorsStep(c, d, q, x);
    }
  }

  /** `gcd(g, a, b)`: Euclid's algorithm on remainders.  For a positive b the
      result is the greatest common divisor.  For b <= 0 the loop never runs
      and the result is the 0 the temporary was initialised with. */
  method Gcd(a: int, b: int) returns (g: int)
    ensures b > 0 ==> IsGcd(g, a, b)
    ensures b <= 0 ==> g == 0
  {
    var aT, bT, temp := a, b, 0;
    while bT > 0
      invariant b <= 0 ==> bT == b && temp == 0
      invariant b > 0 ==> bT >= 0 && (bT == b || (temp == aT && aT > 0))
      invariant SameCommonDivisors(a, b, aT, bT)
      decreases bT
    {
      EuclidStep(a, b, aT, bT, aT / bT);
      assert aT - (aT / bT) * bT == aT % bT;
      temp := bT;
      bT := aT % bT;
      aT := temp;
    }
    g := temp;
    if b > 0 {
      GcdOfZero(aT, a, b);
    }
  }

  // ---------------------------------------------------------------------
  // mod_inverse

  /** x is the integer combination t*a + s*n. */
  ghost predicate Combination(x: int, a: int, n: int, t: int, s: int)
  {
    x == t * a + s * n
  }

  /** One step of the extended algorithm keeps both remainders as integer
      combinations of a and n. */
  lemma BezoutStep(a: int, n: int, r: int, rP: int, t: int, tP: int, s: int, sP: int, q: int)
    requires Combination(r, a, n, t, s) && Combination(rP, a, n, tP, sP)
    ensures Combination(r - q * rP, a, n, t - q * tP, s - q * sP)
  {
    assert q * rP == (q * tP) * a + (q * sP) * n;
  }

  /** What the extended algorithm keeps for a, n >= 0: the remainders are
      non-negative and shrink, the coefficients t and t' alternate in sign,
      |t'| r + |t| r' == n, and |t| times the previous remainder is at most n. */
  ghost predicate CoefficientBound(n: int, r: int, rP: int, t: int, tP: int, prev: int)
  {
    r >= 0 && rP >= 0 && (r > 0 || rP > 0) && (rP < r || r == n)
    && ((t <= 0 && tP >= 0) || (t >= 0 && tP <= 0))
    && Abs(tP) * r + Abs(t) * rP == n
    && (prev > r || prev == n) && Abs(t) * prev <= n
  }

  /** One step of the extended algorithm keeps the bound. */
  lemma CoefficientStep(n: int, r: int, rP: int, t: int, tP: int, prev: int, q: int)
    requires CoefficientBound(n, r, rP, t, tP, prev) && rP != 0 && q == FdivQ(r, rP)
    ensures CoefficientBound(n, rP, r - q * rP, tP, t - q * tP, r)
  {
    QuotientStep(r, rP, q);
    SignStep(t, tP, q);
    CoefficientIdentity(Abs(t), Abs(tP), q, r, rP, n);
    MulMonotone(0, Abs(t), rP);
  }

  lemma QuotientStep(r: int, rP: int, q: int)
    requires r >= 0 && rP > 0 && q == FdivQ(r, rP)
    ensures q >= 0 && 0 <= r - q * rP < rP
  {
    if q < 0 {
      MulMonotone(q, -1, rP);
      assert false;
    }
  }

  lemma SignStep(t: int, tP: int, q: int)
    requires q >= 0 && ((t <= 0 && tP >= 0) || (t >= 0 && tP <= 0))
    ensures (tP <= 0 && t - q * tP >= 0) || (tP >= 0 && t - q * tP <= 0)
    ensures Abs(t - q * tP) == Abs(t) + q * Abs(tP)
  {
    MulMonotone(0, q, Abs(tP));
  }

  lemma CoefficientIdentity(A: int, B: int, q: int, r: int, rP: int, n: int)
    requires B * r + A * rP == n
    ensures (A + q * B) * rP + B * (r - q * rP) == n
  {
    assert (A + q * B) * rP == A * rP + q * B * rP;
    assert B * (r - q * rP) == B * r - B * q * rP;
  }

  /** `mod_inverse(o, a, n)`: the extended Euclidean algorithm.  For a >= 0 and
      n > 1 the result is the inverse of a modulo n, in (0, n), when a and n are
      coprime, and 0 when they are not. */
  method ModInverse(a: int, n: int) returns (o: int)
    ensures a >= 0 && n > 0 && !Coprime(a, n) ==> o == 0
    ensures a >= 0 && n > 1 && Coprime(a, n) ==> 0 < o < n && (a * o) % n == 1
  {
    var r, rP, t, tP := n, a, 0, 1;
    ghost var s, sP := 1, 0;
    ghost var prev := n;
    while rP != 0
      invariant Combination(r, a, n, t, s) && Combination(rP, a, n, tP, sP)
      invariant SameCommonDivisors(a, n, r, rP)
      invariant a >= 0 && n > 0 ==> CoefficientBound(n, r, rP, t, tP, prev)
      decreases Abs(rP)
    {
      var q := FdivQ(r, rP);
      EuclidStep(a, n, r, rP, q);
      BezoutStep(a, n, r, rP, t, tP, s, sP, q);
      if a >= 0 && n > 0 {
        CoefficientStep(n, r, rP, t, tP, prev, q);
      }
      prev := r;
      var rTemp, tTemp := r, t;
      r := rP;
      rP := rTemp - q * rP;
      t := tP;
      tP := tTemp - q * tP;
      s, sP := sP, s - q * sP;
    }
    if a >= 0 && n > 0 {
      ExtendedExit(a, n, r, t, tP, s, prev);
    }
    if r > 1 {
      o := 0;
      return;
    }
    if t < 0 {
      t := t + n;
    }
    o := t;
  }

  /** When the extended algorithm stops (r' == 0) for a >= 0 and n > 0, r is
      gcd(a, n), and when it is 1 the coefficient t, moved into [0, n), is the
      inverse of a. */
  lemma ExtendedExit(a: int, n: int, r: int, t: int, tP: int, s: int, prev: int)
    requires a >= 0 && n > 0
    requires SameCommonDivisors(a, n, r, 0) && Combination(r, a, n, t, s)
    requires CoefficientBound(n, r, 0, t, tP, prev)
    ensures IsGcd(r, a, n)
    ensures Coprime(a, n) <==> r == 1
    ensures n > 1 && r == 1 ==>
      var o := if t < 0 then t + n else t; 0 < o < n && (a * o) % n == 1
  {
    GcdOfZero(r, a, n);
    if Coprime(a, n) {
      GcdUnique(r, 1, a, n);
    }
    if n > 1 && r == 1 {
      assert prev >= 2;
      MulMonotone(2, prev, Abs(t));
      InverseFromBezout(a, n, t, s);
    }
  }

  /** A Bezout coefficient of a below n in magnitude, moved into [0, n), is
      the inverse of a modulo n. */
  lemma InverseFromBezout(a: int, n: int, t: int, s: int)
    requires n > 1 && Combination(1, a, n, t, s) && Abs(t) < n
    ensures var o := if t < 0 then t + n else t; 0 < o < n && (a * o) % n == 1
  {
    var o := if t < 0 then t + n else t;
    assert a * o == 1 + (if t < 0 then a - s else -s) * n;
    ModAddMultiple(1, if t < 0 then a - s else -s, n);
    ModUnique(1, n, 0, 1);
    if o == 0 {
      assert t == 0;
      assert s * n == 1;
      if s <= 0 {
        MulMonotone(s, 0, n);
      } else {
        MulMonotone(1, s, n);
      }
      assert false;
    }
  }

  // ---------------------------------------------------------------------
  // pow_mod

  /** What `pow_mod(o, a, d, n)` computes: a^d reduced modulo n (non-negative,
      as `mpz_mod`), except that for d <= 0 the loop never runs and the 1 it
      starts from is returned unreduced. */
  function ModPow(a: int, d: int, n: int): int
    requires d <= 0 || n != 0
  {
    if d <= 0 then 1 else Pow(a, d) % n
  }

  /** The loop of square-and-multiply keeps v * p^d congruent to the answer. */
  lemma SquareMultiplyStep(v: int, p: int, dT: nat, m: int)
    requires m > 0 && dT > 0
    ensures ((if dT % 2 == 1 then (v * p) % m else v) * Pow((p * p) % m, dT / 2)) % m
            == (v * Pow(p, dT)) % m
  {
    var h := dT / 2;
    SquareHalf(p, h, m);
    if dT % 2 == 1 {
      assert dT == 2 * h + 1;
      OddStep(v, p, h, m);
    } else {
      assert dT == 2 * h;
      ModMulRight(v, Pow((p * p) % m, h), m);
      ModMulRight(v, Pow(p, 2 * h), m);
    }
  }

  /** Squaring the base halves the exponent. */
  lemma SquareHalf(p: int, h: nat, m: int)
    requires m > 0
    ensures Pow((p * p) % m, h) % m == Pow(p, 2 * h) % m
  {
    PowSquare(p);
    PowMul(p, 2, h);
    PowModBase(p * p, h, m);
  }

  lemma OddStep(v: int, p: int, h: nat, m: int)
    requires m > 0
    requires Pow((p * p) % m, h) % m == Pow(p, 2 * h) % m
    ensures (((v * p) % m) * Pow((p * p) % m, h)) % m == (v * Pow(p, 2 * h + 1)) % m
  {
    var Q, P := Pow((p * p) % m, h), Pow(p, 2 * h);
    ModMulLeft(v * p, Q, m);
    MulCongruent(v * p, Q, P, m);
    assert Pow(p, 2 * h + 1) == p * P;
    assert (v * p) * P == v * (p * P);
  }

  /** Multiplying congruent numbers by the same factor keeps them congruent. */
  lemma MulCongruent(x: int, y: int, z: int, m: int)
    requires m > 0 && y % m == z % m
    ensures (x * y) % m == (x * z) % m
  {
    ModMulRight(x, y, m);
    ModMulRight(x, z, m);
  }

  /** `pow_mod(o, a, d, n)`: modular exponentiation by repeated squaring. */
  method PowMod(a: int, d: int, n: int) returns (o: int)
    requires d <= 0 || n != 0
    ensures o == ModPow(a, d, n)
    ensures d > 0 ==> 0 <= o < Abs(n)
  {
    var dT, v, p := d, 1, a;
    while dT > 0
      invariant d <= 0 ==> dT == d && v == 1
      invariant d > 0 ==> dT >= 0 && (v * Pow(p, dT)) % Abs(n) == Pow(a, d) % Abs(n)
      invariant d > 0 && dT == 0 ==> 0 <= v < Abs(n)
      decreases dT
    {
      SquareMultiplyStep(v, p, dT, Abs(n));
      ModAbs(p * p, n);
      if dT % 2 == 1 {
        ModAbs(v * p, n);
        v := (v * p) % n;
      }
      p := (p * p) % n;
      dT := dT / 2;
    }
    o := v;
    if d > 0 {
      ModUnique(v, Abs(n), 0, v);
      ModAbs(Pow(a, d), n);
    }
  }

  // ---------------------------------------------------------------------
  // is_prime

  /** m = 2^s * r with r odd: the pair (s, r) the halving loop of the test
      finds for m = n - 1. */
  function TwoAdic(m: nat): (sr: (nat, nat))
    requires m > 0
    ensures m == Pow(2, sr.0) * sr.1 && sr.1 % 2 == 1
    ensures m % 2 == 0 ==> sr.0 >= 1
    decreases m
  {
    if m % 2 == 1 then (0, m)
    else
      var sr := TwoAdic(m / 2);
      assert Pow(2, sr.0 + 1) == 2 * Pow(2, sr.0);
      (sr.0 + 1, sr.1)
  }

  /** y is n - 1, or becomes n - 1 within k further squarings modulo n. */
  ghost predicate ReachesMinusOne(n: int, y: int, k: nat)
    requires n > 0
    decreases k
  {
    y == n - 1 || (k > 0 && ReachesMinusOne(n, (y * y) % n, k - 1))
  }

  /** The odd n >= 3 passes one Miller-Rabin round with witness a: writing
      n - 1 = 2^s * r with r odd, a^r is 1 modulo n, or one of a^r, a^(2r),
      ..., a^(2^(s-1) r) is n - 1 modulo n. */
  ghost predicate StrongProbablePrime(n: int, a: int)
    requires n >= 3 && n % 2 == 1
  {
    var sr := TwoAdic(n - 1);
    Pow(a, sr.1) % n == 1 || ReachesMinusOne(n, Pow(a, sr.1) % n, sr.0 - 1)
  }

  /** The number of random rounds `is_prime(n, iters)` runs: the passes its
      loop `for (i = 1; i < iters; i += 1)` makes. */
  function Rounds(iters: nat): (r: nat)
    ensures r == Passes(1, iters)
  {
    PassesCount(1, iters);
    if iters >= 1 then iters - 1 else 0
  }

  /** The passes a loop makes whose counter starts at i and steps by 1 while
      below iters. */
  function Passes(i: nat, iters: nat): nat
    decreases iters - i
  {
    if i < iters then 1 + Passes(i + 1, iters) else 0
  }

  lemma {:induction false} PassesCount(i: nat, iters: nat)
    ensures Passes(i, iters) == if i < iters then iters - i else 0
    decreases iters - i
  {
    if i < iters {
      PassesCount(i + 1, iters);
    }
  }

  /** The verdict of the test on n when the witnesses ws were drawn: 2 and 3
      are accepted outright; otherwise n must be odd and at least 5 and pass
      the round of every witness. */
  ghost predicate MillerRabinAccepts(n: nat, iters: nat, ws: seq<int>)
  {
    n == 2 || n == 3 ||
    (n >= 5 && n % 2 == 1 && |ws| == Rounds(iters) &&
     forall i :: 0 <= i < |ws| ==> StrongProbablePrime(n, ws[i]))
  }

  /** 1 squares to 1, so it never reaches n - 1. */
  lemma {:induction false} OneNeverReaches(n: int, k: nat)
    requires n >= 3
    ensures !ReachesMinusOne(n, 1, k)
    decreases k
  {
    ModUnique(1, n, 0, 1);
    if k > 0 {
      OneNeverReaches(n, k - 1);
    }
  }

  /** A number y other than 1 whose 2^(k+1)-th power is 1 modulo the prime n
      reaches n - 1 within k squarings: the only square roots of 1 are 1 and
      n - 1. */
  lemma {:induction false} SquareChain(n: int, y: int, k: nat)
    requires IsPrimeNumber(n) && 0 <= y < n && y != 1
    requires Pow(y, Pow2(k + 1)) % n == 1
    ensures ReachesMinusOne(n, y, k)
    decreases k
  {
    if y != n - 1 {
      var y2 := (y * y) % n;
      PowSquare(y);
      PowMul(y, 2, Pow2(k));
      assert Pow2(k + 1) == 2 * Pow2(k);
      PowModBase(y * y, Pow2(k), n);
      if y2 == 1 {
        SquareRootOfOne(n, y);
        assert false;
      }
      if k == 0 {
        assert false;
      }
      SquareChain(n, y2, k - 1);
    }
  }

  /** Every witness in [2, n - 2] passes the round when n is prime (by
      Fermat's little theorem and the square roots of 1): the test never
      rejects a prime. */
  lemma MillerRabinSound(n: int, a: int)
    requires n >= 3 && n % 2 == 1 && 2 <= a <= n - 2
    ensures IsPrimeNumber(n) ==> StrongProbablePrime(n, a)
  {
    if IsPrimeNumber(n) {
      var sr := TwoAdic(n - 1);
      var s, r := sr.0, sr.1;
      var y := Pow(a, r) % n;
      if y != 1 {
        assert Pow2(s) == Pow(2, s);
        assert r * Pow2(s) == n - 1;
        PowMul(a, r, Pow2(s));
        PowModBase(Pow(a, r), Pow2(s), n);
        ModUnique(a, n, 0, a);
        Fermat(n, a);
        assert Pow(y, Pow2(s - 1 + 1)) % n == 1;
        SquareChain(n, y, s - 1);
      }
    }
  }

  /** The halving loop of `is_prime`: strips the factors 2 from m. */
  method HalveToOdd(m: nat) returns (s: nat, r: nat)
    requires m > 0
    ensures TwoAdic(m) == (s, r)
  {
    s, r := 0, m;
    while r % 2 == 0
      invariant r > 0 && TwoAdic(m) == (s + TwoAdic(r).0, TwoAdic(r).1)
      decreases r
    {
      r := r / 2;
      s := s + 1;
    }
  }

  /** One round of `is_prime` with witness a, the body of its loop: pass is
      false exactly when a shows that n is composite. */
  method WitnessRound(n: nat, a: int, s: nat, r: nat) returns (pass: bool)
    requires n >= 5 && n % 2 == 1 && TwoAdic(n - 1) == (s, r)
    ensures pass <==> StrongProbablePrime(n, a)
  {
    var nMinOne := n - 1;
    var y := PowMod(a, r, n);
    if y != 1 && y != nMinOne {
      var j := 1;
      while j <= s - 1 && y != nMinOne
        invariant 1 <= j <= s
        invariant 0 <= y < n && y != 1
        invariant ReachesMinusOne(n, Pow(a, r) % n, s - 1) <==> ReachesMinusOne(n, y, s - j)
        decreases s - j
      {
        PowSquare(y);
        y := PowMod(y, 2, n);
        if y == 1 {
          OneNeverReaches(n, s - j - 1);
          return false;
        }
        j := j + 1;
      }
      if y != nMinOne {
        return false;
      }
    }
    return true;
  }

  /** `is_prime(n, iters)`: the Miller-Rabin test with iters - 1 random
      witnesses.  The ghost witnesses are the draws the run made; the verdict
      is exactly the test's verdict on them, a rejection comes right after
      the first witness that fails, and a prime is never rejected. */
  method IsPrime(n: nat, iters: nat) returns (probablyPrime: bool, ghost witnesses: seq<int>)
    ensures n == 2 || n == 3 ==> probablyPrime
    ensures n < 2 || (n % 2 == 0 && n != 2) ==> !probablyPrime
    ensures forall i :: 0 <= i < |witnesses| ==> 2 <= witnesses[i] <= n - 2
    ensures probablyPrime <==> MillerRabinAccepts(n, iters, witnesses)
    ensures !probablyPrime && n >= 5 && n % 2 == 1 ==>
      1 <= |witnesses| <= Rounds(iters) && !StrongProbablePrime(n, witnesses[|witnesses| - 1])
      && forall i :: 0 <= i < |witnesses| - 1 ==> StrongProbablePrime(n, witnesses[i])
    ensures IsPrimeNumber(n) ==> probablyPrime
    ensures iters <= 1 ==> (probablyPrime <==> n == 2 || n == 3 || (n >= 5 && n % 2 == 1))
  {
    witnesses := [];
    var r := n - 1;
    var range := n - 3;
    if n == 2 || n == 3 {
      return true, witnesses;
    }
    if n % 2 == 0 || n == 1 {
      if n >= 2 {
        assert n % 2 == 0;
      }
      return false, witnesses;
    }
    var s;
    s, r := HalveToOdd(r);
    var i := 1;
    while i < iters
      invariant 1 <= i <= (if iters >= 1 then iters else 1)
      invariant |witnesses| == i - 1
      invariant forall k :: 0 <= k < |witnesses| ==>
        2 <= witnesses[k] <= n - 2 && StrongProbablePrime(n, witnesses[k])
    {
      var a := Urandomm(range);
      a := a + 2;
      witnesses := witnesses + [a];
      var pass := WitnessRound(n, a, s, r);
      MillerRabinSound(n, a);
      if !pass {
        assert !StrongProbablePrime(n, witnesses[i - 1]);
        return false, witnesses;
      }
      i := i + 1;
    }
    return true, witnesses;
  }

  /** 9 has no strong liar: every witness in [2, 7] exposes it, so a run
      with at least one round rejects it. */
  lemma NineIsRejected(iters: nat, ws: seq<int>)
    requires iters >= 2
    requires forall i :: 0 <= i < |ws| ==> 2 <= ws[i] <= 7
    ensures !MillerRabinAccepts(9, iters, ws)
  {
    if |ws| == Rounds(iters) {
      NineWitness(ws[0]);
    }
  }

  /** Each witness in [2, 7] shows that 9 is composite: a^8 runs through
      a, a^2, a^4 modulo 9 without meeting 1 or 8 where it must. */
  lemma NineWitness(a: int)
    requires 2 <= a <= 7
    ensures !StrongProbablePrime(9, a)
  {
    assert TwoAdic(8) == (3, 1);
    assert Pow(a, 1) == a;
    ModUnique(a, 9, 0, a);
    var a2 := (a * a) % 9;
    if a == 2 || a == 7 {
      assert a2 == 4;
    } else if a == 3 || a == 6 {
      assert a2 == 0;
    } else {
      assert a2 == 7;
    }
    var a4 := (a2 * a2) % 9;
    assert a4 == 7 || a4 == 0 || a4 == 4;
    assert !ReachesMinusOne(9, a4, 0);
    assert !ReachesMinusOne(9, a2, 1);
  }

  // ---------------------------------------------------------------------
  // make_prime

  /** `make_prime(p, bits, iters)`: draw (bits + 1)-bit candidates until one
      passes the test and has bits + 1 binary digits.  The loop has no bound,
      so the model runs at most fuel draws and returns None when they are
      spent.  A result lies in [2^bits, 2^(bits+1)) and passed the test on the
      witnesses drawn for it; with bits == 0 no candidate is ever accepted. */
  method MakePrime(bits: nat, iters: nat, fuel: nat) returns (p: Option<nat>, ghost witnesses: seq<int>)
    ensures p.Some? ==> Pow(2, bits) <= p.value < Pow(2, bits + 1)
    ensures p.Some? ==> MillerRabinAccepts(p.value, iters, witnesses)
    ensures p.Some? ==> forall i :: 0 <= i < |witnesses| ==> 2 <= witnesses[i] <= p.value - 2
    ensures bits == 0 ==> p.None?
  {
    var draws := 0;
    while draws < fuel
      decreases fuel - draws
    {
      var x := Urandomb(bits + 1);
      var ok, ws := IsPrime(x, iters);
      if ok && SizeInBase2(x) >= bits + 1 {
        SizeInBase2AtLeast(x, bits);
        assert Pow(2, 1) == 2;
        return Some(x), ws;
      }
      draws := draws + 1;
    }
    return None, [];
  }
}
