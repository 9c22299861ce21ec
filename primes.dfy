/** Prime-capacity sizing shared by both hash maps: the primality test, the
    search for the next odd prime, and the arithmetic facts their proofs need. */
module Primes {

  /** n is prime: at least 2 and without a divisor strictly between 1 and n. */
  ghost predicate Prime(n: nat) {
    n >= 2 && forall d :: 2 <= d < n ==> n % d != 0
  }

  /** The capacity a resize settles on for a request n: n itself when it is
      prime, otherwise the next odd prime. */
  ghost function PrimeCapacity(n: nat): (c: nat)
    ensures Prime(c) && n <= c
    ensures !Prime(n) ==> c % 2 == 1
  {
    if Prime(n) then n else LeastOddPrimeAtLeast(n)
  }

  // ---------------------------------------------------------------------
  // Arithmetic facts

  lemma DivMod(m: int, d: int)
    requires d > 0
    ensures m == d * (m / d) + m % d && 0 <= m % d < d
  {
  }

  lemma MulAtLeast(d: int, k: int)
    requires d > 0 && k >= 1
    ensures d * k >= d
  {
  }

  /** Euclidean division is unique: quotient and remainder are determined. */
  lemma ModUnique(m: int, d: int, q: int, r: int)
    requires d > 0 && 0 <= r < d && m == d * q + r
    ensures m % d == r && m / d == q
  {
    var q0, r0 := m / d, m % d;
    DivMod(m, d);
    if q0 < q {
      assert d * (q - q0) == r0 - r;
      MulAtLeast(d, q - q0);
    } else if q0 > q {
      assert d * (q0 - q) == r - r0;
      MulAtLeast(d, q0 - q);
    }
  }

  lemma ModMultiple(d: int, k: int)
    requires d > 0
    ensures (d * k) % d == 0
  {
    ModUnique(d * k, d, k, 0);
  }

  /** Equal remainders mean the difference is a multiple. */
  lemma ModDifference(a: int, b: int, d: int)
    requires d > 0 && a % d == b % d
    ensures (b - a) % d == 0
  {
    DivMod(a, d);
    DivMod(b, d);
    assert b - a == d * (b / d - a / d);
    ModMultiple(d, b / d - a / d);
  }

  /** A divisor of a divisor divides. */
  lemma DividesTransitive(m: int, d: int, p: int)
    requires p > 0 && d > 0 && m % d == 0 && d % p == 0
    ensures m % p == 0
  {
    DivMod(m, d);
    DivMod(d, p);
    assert m == p * ((d / p) * (m / d));
    ModMultiple(p, (d / p) * (m / d));
  }

  lemma SquareLess(s: int, f: int)
    requires 0 <= s && 0 <= f && s * s < f * f
    ensures s < f
  {
  }

  /** A product of two numbers is odd only if both factors are. */
  lemma OddFactors(a: int, b: int)
    requires (a * b) % 2 == 1
    ensures a % 2 == 1 && b % 2 == 1
  {
    if a % 2 == 0 {
      DivMod(a, 2);
      assert a * b == 2 * ((a / 2) * b);
      ModMultiple(2, (a / 2) * b);
    }
    if b % 2 == 0 {
      DivMod(b, 2);
      assert a * b == 2 * (a * (b / 2));
      ModMultiple(2, a * (b / 2));
    }
  }

  lemma EvenNotPrime(m: nat)
    requires m >= 4 && m % 2 == 0
    ensures !Prime(m)
  {
    assert m % 2 == 0;
  }

  /** For a prime p, a product of two factors in (0, p) is never a multiple
      of p (no zero divisors modulo a prime). */
  lemma {:induction false} PrimeProductNonzero(p: nat, a: int, b: int)
    requires Prime(p) && 0 < a < p && 0 < b < p
    ensures (a * b) % p != 0
    decreases b
  {
    if b == 1 {
      ModUnique(a * b, p, 0, a);
    } else if (a * b) % p == 0 {
      var q, r := p / b, p % b;
      DivMod(p, b);
      assert r != 0;
      var k := (a * b) / p;
      DivMod(a * b, p);
      assert a * b == p * k;
      calc {
        a * r;
        a * (p - b * q);
        a * p - (a * b) * q;
        a * p - (p * k) * q;
        p * (a - k * q);
      }
      ModMultiple(p, a - k * q);
      PrimeProductNonzero(p, a, r);
    }
  }

  // ---------------------------------------------------------------------
  // There is always a larger odd prime (Euclid)

  function Factorial(n: nat): (r: nat)
    ensures r >= 1
  {
    if n == 0 then 1 else n * Factorial(n - 1)
  }

  lemma {:induction false} FactorialDivisible(n: nat, d: nat)
    requires 1 <= d <= n
    ensures Factorial(n) % d == 0
  {
    if d == n {
      ModMultiple(n, Factorial(n - 1));
    } else {
      FactorialDivisible(n - 1, d);
      DivMod(Factorial(n - 1), d);
      assert Factorial(n) == d * (n * (Factorial(n - 1) / d));
      ModMultiple(d, n * (Factorial(n - 1) / d));
    }
  }

  /** Every number from 2 on has a prime divisor. */
  lemma {:induction false} PrimeDivisor(m: nat) returns (p: nat)
    requires m >= 2
    ensures Prime(p) && m % p == 0
    decreases m
  {
    if Prime(m) {
      ModMultiple(m, 1);
      return m;
    }
    var d :| 2 <= d < m && m % d == 0;
    p := PrimeDivisor(d);
    DividesTransitive(m, d, p);
  }

  /** For every n there is an odd prime at least n. */
  lemma OddPrimeAtLeast(n: nat)
    ensures exists p :: Prime(p) && p % 2 == 1 && n <= p
  {
    var m := if n < 3 then 3 else n;
    var p := PrimeDivisor(Factorial(m) + 1);
    if p <= m {
      FactorialDivisible(m, p);
      DivMod(Factorial(m), p);
      ModUnique(Factorial(m) + 1, p, Factorial(m) / p, 1);
    }
    assert Prime(p) && p % 2 == 1 && n <= p;
  }

  // ---------------------------------------------------------------------
  // The specification of the search for the next prime

  /** The first prime in c, c + 2, c + 4, ...; bound is any odd prime at
      least c, which makes the search finite. */
  ghost function NextPrimeFrom(c: nat, bound: nat): (p: nat)
    requires c % 2 == 1 && Prime(bound) && bound % 2 == 1 && c <= bound
    ensures Prime(p) && p % 2 == 1 && c <= p
    ensures forall q :: c <= q < p && q % 2 == 1 ==> !Prime(q)
    decreases bound - c
  {
    if Prime(c) then c else NextPrimeFrom(c + 2, bound)
  }

  /** The smallest odd prime at least n. */
  ghost function LeastOddPrimeAtLeast(n: nat): (p: nat)
    ensures Prime(p) && p % 2 == 1 && n <= p
    ensures forall q :: n <= q < p && q % 2 == 1 ==> !Prime(q)
  {
    var c := if n % 2 == 0 then n + 1 else n;
    OddPrimeAtLeast(c);
    var b :| Prime(b) && b % 2 == 1 && c <= b;
    NextPrimeFrom(c, b)
  }

  /** The smallest odd prime at least n is determined by its defining property. */
  lemma LeastOddPrimeUnique(n: nat, p: nat)
    requires Prime(p) && p % 2 == 1 && n <= p
    requires forall q :: n <= q < p && q % 2 == 1 ==> !Prime(q)
    ensures p == LeastOddPrimeAtLeast(n)
  {
  }

  /** The next prime is never 2: requests 0, 1 and 2 all give 3. */
  lemma NextPrimeOfSmall()
    ensures LeastOddPrimeAtLeast(0) == 3
    ensures LeastOddPrimeAtLeast(1) == 3
    ensures LeastOddPrimeAtLeast(2) == 3
  {
    assert Prime(3);
    assert !Prime(1);
    LeastOddPrimeUnique(0, 3);
    LeastOddPrimeUnique(1, 3);
    LeastOddPrimeUnique(2, 3);
  }

  /** A resize keeps a request that is already prime, 2 included. */
  lemma PrimeCapacityKeepsPrimes(n: nat)
    ensures PrimeCapacity(n) == n <==> Prime(n)
    ensures PrimeCapacity(2) == 2
  {
    assert Prime(2);
  }

  // ---------------------------------------------------------------------
  // The executable helpers

  /** The primality test by trial division with odd factors up to the
      square root; exact for every n >= 0. */
  method IsPrime(n: nat) returns (b: bool)
    ensures b == Prime(n)
  {
    if n == 2 || n == 3 {
      return true;
    }
    if n == 1 || n % 2 == 0 {
      if n >= 4 {
        EvenNotPrime(n);
      }
      return false;
    }
    var factor := 3;
    while factor * factor <= n
      invariant 3 <= factor && factor % 2 == 1
      invariant forall d :: 3 <= d < factor && d % 2 == 1 ==> n % d != 0
      decreases n - factor
    {
      if n % factor == 0 {
        assert factor * factor >= 3 * factor;
        return false;
      }
      NoOddFactorBelowNext(n, factor);
      factor := factor + 2;
    }
    NoSmallFactorPrime(n, factor);
    return true;
  }

  /** A composite odd n has an odd factor no larger than its square root. */
  lemma SmallOddFactor(n: nat, d: nat) returns (s: nat)
    requires n % 2 == 1 && 2 <= d < n && n % d == 0
    ensures 3 <= s && s % 2 == 1 && s * s <= n && n % s == 0
  {
    DivMod(n, d);
    var e := n / d;
    assert n == d * e;
    OddFactors(d, e);
    s := if d <= e then d else e;
    var t := if d <= e then e else d;
    assert n == s * t;
    assert s * s <= s * t;
    ModMultiple(s, t);
  }

  /** An odd n with no odd factor below f, where f * f > n, is prime. */
  lemma NoSmallFactorPrime(n: nat, f: nat)
    requires n >= 5 && n % 2 == 1 && f >= 3 && f * f > n
    requires forall d :: 3 <= d < f && d % 2 == 1 ==> n % d != 0
    ensures Prime(n)
  {
    forall d | 2 <= d < n
      ensures n % d != 0
    {
      if n % d == 0 {
        var s := SmallOddFactor(n, d);
        SquareLess(s, f);
      }
    }
  }

  /** The trial division passes one more odd factor. */
  lemma NoOddFactorBelowNext(n: nat, f: nat)
    requires f >= 3 && f % 2 == 1 && n % f != 0
    requires forall d :: 3 <= d < f && d % 2 == 1 ==> n % d != 0
    ensures forall d :: 3 <= d < f + 2 && d % 2 == 1 ==> n % d != 0
    ensures (f + 2) % 2 == 1
  {
    OddSuccessor(f);
  }

  /** The number after an odd number is even, and the one after that odd. */
  lemma OddSuccessor(p: int)
    requires p % 2 == 1
    ensures (p + 1) % 2 == 0 && (p + 2) % 2 == 1
  {
    DivMod(p, 2);
    ModUnique(p + 1, 2, p / 2 + 1, 0);
    ModUnique(p + 2, 2, p / 2 + 1, 1);
  }

  lemma OddStep(p: int, b: int)
    requires p % 2 == 1 && b % 2 == 1 && p < b
    ensures p + 2 <= b && (p + 2) % 2 == 1
  {
    OddSuccessor(p);
  }

  /** The search for the next prime: an even request moves to the next odd
      number, then odd candidates are tried in turn; the result is the
      smallest odd prime at least n, so never 2. */
  method NextPrime(n: nat) returns (p: nat)
    ensures Prime(p) && p % 2 == 1 && n <= p
    ensures forall q :: n <= q < p && q % 2 == 1 ==> !Prime(q)
    ensures p == LeastOddPrimeAtLeast(n)
  {
    ghost var bound := LeastOddPrimeAtLeast(n);
    p := n;
    if p % 2 == 0 {
      p := p + 1;
    }
    FirstCandidate(n, p);
    var isPrime := IsPrime(p);
    while !isPrime
      invariant p % 2 == 1 && n <= p <= bound
      invariant isPrime == Prime(p)
      decreases bound - p
    {
      OddStep(p, bound);
      p := p + 2;
      isPrime := IsPrime(p);
    }
    LeastBelowBound(n, p);
  }

  /** The search starts at n, or at n + 1 when n is even: an odd number no
      larger than the least odd prime at least n. */
  lemma FirstCandidate(n: nat, p: nat)
    requires p == if n % 2 == 0 then n + 1 else n
    ensures p % 2 == 1 && n <= p <= LeastOddPrimeAtLeast(n)
  {
    var bound := LeastOddPrimeAtLeast(n);
    DivMod(n, 2);
    if n % 2 == 0 {
      ModUnique(n + 1, 2, n / 2, 1);
      assert bound != n;
    }
  }

  /** An odd prime at least n and no larger than the least one is the
      least one. */
  lemma LeastBelowBound(n: nat, p: nat)
    requires Prime(p) && p % 2 == 1 && n <= p <= LeastOddPrimeAtLeast(n)
    ensures p == LeastOddPrimeAtLeast(n)
  {
  }

  /** The capacity resize_table settles on for a request n: n itself when
      the primality test accepts it, otherwise the next prime. */
  method ResizeCapacity(n: nat) returns (c: nat)
    ensures c == PrimeCapacity(n)
    ensures Prime(c) && n <= c
  {
    c := n;
    var isPrime := IsPrime(c);
    if !isPrime {
      c := NextPrime(c);
    }
  }
}
