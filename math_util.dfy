/**
 * Integer mathematics: Euclid's greatest common divisor (a loop and a
 * recursion), the least common multiple, trial-division primality and the
 * sieve of Eratosthenes, factorial, binomial coefficients and
 * arrangements, fast exponentiation (plain and modular), the integer
 * square root by binary search, and the decimal digits of a number (their
 * sum, and whether they read the same backwards). Java `int` and `long`
 * are unbounded `int` here; Java's `/` and `%` are `JavaDiv` and `JavaRem`
 * wherever an operand may be negative.
 */
module MathUtil {
  import opened Wrappers
  import opened Seqs
  import opened JavaInt

  // ---------------------------------------------------------------------------
  // Divisibility
  // ---------------------------------------------------------------------------

  /** `d` divides `x`: x is a whole multiple of d (only 0 is a multiple of 0). */
  predicate Divides(d: int, x: int) {
    if d == 0 then x == 0 else x % d == 0
  }

  /** d divides d * k. */
  lemma DividesMultiple(d: int, k: int)
    requires d > 0
    ensures Divides(d, d * k)
  {
    ModUnique(d * k, d, k, 0);
  }

  /** A positive divisor of a positive number is at most that number. */
  lemma DivisorAtMost(d: int, x: int)
    requires d > 0 && x > 0 && x % d == 0
    ensures d <= x
  {
    assert x == (x / d) * d;
    MulBounds(x / d, d);
  }

  // ---------------------------------------------------------------------------
  // Greatest common divisor and least common multiple
  // ---------------------------------------------------------------------------

  /** `gcdRecursive`: gcd(a, b) = a when b = 0, else gcd(b, a % b) with Java's `%`. */
  function GcdRecursive(a: int, b: int): (r: int)
    ensures r == 0 <==> a == 0 && b == 0
    decreases Abs(b)
  {
    if b == 0 then a
    else
      JavaDivRem(a, b);
      GcdRecursive(b, JavaRem(a, b))
  }

  /** `gcd`: Euclid's algorithm as a loop; it computes what `gcdRecursive` does. */
  method Gcd(a: int, b: int) returns (r: int)
    ensures r == GcdRecursive(a, b)
  {
    var x, y := a, b;
    while y != 0
      invariant GcdRecursive(x, y) == GcdRecursive(a, b)
      decreases Abs(y)
    {
      JavaDivRem(x, y);
      var temp := y;
      y := JavaRem(x, y);
      x := temp;
    }
    r := x;
  }

  /** gcd(a, 0) = a and gcd(0, b) = b. */
  lemma GcdWithZero(a: int, b: int)
    requires b >= 0
    ensures GcdRecursive(a, 0) == a
    ensures GcdRecursive(0, b) == b
  {
    if b != 0 {
      assert JavaRem(0, b) == 0;
    }
  }

  /** On non-negative operands the gcd is non-negative and divides both. */
  lemma {:induction false} GcdDivides(a: int, b: int)
    requires a >= 0 && b >= 0
    ensures GcdRecursive(a, b) >= 0
    ensures Divides(GcdRecursive(a, b), a) && Divides(GcdRecursive(a, b), b)
    decreases b
  {
    if b > 0 {
      JavaDivNonNegative(a, b);
      var r := a % b;
      var g := GcdRecursive(b, r);
      GcdDivides(b, r);
      var kb, kr := b / g, r / g;
      assert b == g * kb && r == g * kr;
      assert a == g * ((a / b) * kb + kr);
      DividesMultiple(g, (a / b) * kb + kr);
    } else {
      if a > 0 {
        DividesMultiple(a, 1);
        DividesMultiple(a, 0);
      }
    }
  }

  /** Every positive common divisor of a and b divides their gcd. */
  lemma {:induction false} GcdGreatest(a: int, b: int, d: int)
    requires a >= 0 && b >= 0 && d > 0
    requires Divides(d, a) && Divides(d, b)
    ensures Divides(d, GcdRecursive(a, b))
    decreases b
  {
    if b > 0 {
      JavaDivNonNegative(a, b);
      var r := a % b;
      var ka, kb := a / d, b / d;
      assert a == d * ka && b == d * kb;
      assert r == d * (ka - (a / b) * kb);
      DividesMultiple(d, ka - (a / b) * kb);
      GcdGreatest(b, r, d);
    }
  }

  /**
   * The gcd of two non-negative numbers, not both 0, is the largest number
   * dividing both.
   */
  lemma GcdIsLargest(a: int, b: int, d: int)
    requires a >= 0 && b >= 0 && (a > 0 || b > 0)
    requires d > 0 && Divides(d, a) && Divides(d, b)
    ensures 0 < d <= GcdRecursive(a, b)
  {
    GcdDivides(a, b);
    GcdGreatest(a, b, d);
    DivisorAtMost(d, GcdRecursive(a, b));
  }

  /**
   * `lcm`: a * b / gcd(a, b); when both are 0 the gcd is 0 and the source
   * divides by zero (`None`).
   */
  function Lcm(a: int, b: int): (r: Option<int>)
    ensures r.None? <==> a == 0 && b == 0
  {
    var g := GcdRecursive(a, b);
    if g == 0 then None else Some(JavaDiv(a * b, g))
  }

  /**
   * For non-negative a and b, not both 0, the lcm is a non-negative common
   * multiple of a and b, and lcm * gcd = a * b.
   */
  lemma LcmCommonMultiple(a: int, b: int)
    requires a >= 0 && b >= 0 && (a > 0 || b > 0)
    ensures Lcm(a, b).Some?
    ensures Lcm(a, b).value >= 0
    ensures Divides(a, Lcm(a, b).value) && Divides(b, Lcm(a, b).value)
    ensures Lcm(a, b).value * GcdRecursive(a, b) == a * b
  {
    GcdDivides(a, b);
    var g := GcdRecursive(a, b);
    var ka, kb := a / g, b / g;
    var l := ka * b;
    LcmPieces(a, b, g, ka, kb);
    ExactDiv(l, g);
    JavaDivNonNegative(a * b, g);
    if a > 0 {
      DividesMultiple(a, kb);
    }
    if b > 0 {
      DividesMultiple(b, ka);
    }
  }

  /** With a = g * ka and b = g * kb: a * b = (ka * b) * g and ka * b = a * kb. */
  lemma LcmPieces(a: int, b: int, g: int, ka: int, kb: int)
    requires g > 0 && ka == a / g && kb == b / g && a % g == 0 && b % g == 0
    ensures a * b == (ka * b) * g
    ensures ka * b == a * kb
    ensures ka >= 0 || a < 0
  {
    assert a == g * ka && b == g * kb;
  }

  /** Dividing an exact multiple gives the factor back. */
  lemma ExactDiv(q: int, g: int)
    requires g > 0
    ensures (q * g) / g == q && (q * g) % g == 0
  {
    ModUnique(q * g, g, q, 0);
    var d := (q * g) / g - q;
    assert d * g == 0;
    MulBounds(d, g);
  }

  // ---------------------------------------------------------------------------
  // Primality
  // ---------------------------------------------------------------------------

  /** n has no divisor d with 2 <= d < hi. */
  ghost predicate NoDivisorBelow(n: int, hi: int) {
    forall d :: 2 <= d < hi ==> n % d != 0
  }

  /** n is prime: at least 2, with no divisor between 2 and n - 1. */
  ghost predicate Prime(n: int) {
    n >= 2 && NoDivisorBelow(n, n)
  }

  /** A divisor d of n with 2 <= d < n has the cofactor n / d, also a divisor in [2, n). */
  lemma Cofactor(n: int, d: int)
    requires 2 <= d < n
    ensures n % d == 0 ==> 2 <= n / d < n && n % (n / d) == 0 && (n / d) * d == n
  {
    if n % d == 0 {
      var e := n / d;
      assert e * d == n;
      MulBounds(e, d);
      assert e >= 1;
      ModUnique(n, e, d, 0);
    }
  }

  /** A divisor at least i of a number below i * i has a cofactor below i. */
  lemma CofactorBelow(n: int, d: int, i: int)
    requires 2 <= i <= d < n && n < i * i
    ensures n % d == 0 ==> n / d < i
  {
    Cofactor(n, d);
    if n % d == 0 {
      var e := n / d;
      assert e * d == n;
      if e >= i {
        MulMono(i, e, i, d);
      }
    }
  }

  /** Products of non-negative numbers grow with their factors. */
  lemma MulMono(a: int, b: int, c: int, d: int)
    requires 0 <= a <= b && 0 <= c <= d
    ensures a * c <= b * d
  {
    assert a * c <= b * c;
  }

  /**
   * No divisor below i, where i * i > n, means no divisor at all: a
   * divisor at least i would have a cofactor below i.
   */
  lemma NoLargeDivisor(n: int, i: int)
    requires 2 <= i && n < i * i
    requires NoDivisorBelow(n, i)
    ensures NoDivisorBelow(n, n)
  {
    forall d | i <= d < n
      ensures n % d != 0
    {
      CofactorBelow(n, d, i);
      Cofactor(n, d);
    }
  }

  /** An odd number has no even divisor. */
  lemma OddNoEvenDivisor(n: int, d: int)
    requires d > 0
    ensures n % d == 0 && d % 2 == 0 ==> n % 2 == 0
  {
    if n % d == 0 && d % 2 == 0 {
      var k := n / d;
      assert n == d * k;
      assert d == 2 * (d / 2);
      assert n == ((d / 2) * k) * 2;
      ModUnique(n, 2, (d / 2) * k, 0);
    }
  }

  /** A divisor strictly between 1 and n shows n is not prime. */
  lemma NotPrime(n: int, d: int)
    requires 2 <= d < n && n % d == 0
    ensures !Prime(n)
  {
  }

  /** Trial division of an odd n by the odd i passes over i + 1 as well. */
  lemma OddStep(n: int, i: int)
    requires n % 2 == 1 && i >= 3 && i % 2 == 1
    requires NoDivisorBelow(n, i) && n % i != 0
    ensures NoDivisorBelow(n, i + 2)
  {
    OddNoEvenDivisor(n, i + 1);
  }

  /**
   * `isPrime`: false below 2, true for 2, false for other even numbers,
   * then trial division by the odd numbers i with i * i <= n.
   */
  method IsPrime(n: int) returns (r: bool)
    ensures r <==> Prime(n)
  {
    if n < 2 {
      return false;
    }
    if n == 2 {
      return true;
    }
    if n % 2 == 0 {
      NotPrime(n, 2);
      return false;
    }
    var i := 3;
    while i * i <= n
      invariant 3 <= i && i % 2 == 1
      invariant NoDivisorBelow(n, i)
      decreases n - i
    {
      MulMono(1, i, 3, i);
      if n % i == 0 {
        NotPrime(n, i);
        return false;
      }
      OddStep(n, i);
      i := i + 2;
    }
    NoLargeDivisor(n, i);
    return true;
  }

  // ---------------------------------------------------------------------------
  // Sieve of Eratosthenes
  // ---------------------------------------------------------------------------

  /**
   * The sieve after crossing out the multiples of every number below i:
   * an entry j in [2, n] is still set exactly when j has no divisor below
   * min(i, j).
   */
  ghost predicate Sieved(p: seq<bool>, n: int, i: int) {
    |p| == n + 1 && forall j :: 2 <= j <= n ==> (p[j] <==> NoDivisorBelow(j, Min(i, j)))
  }

  /** A multiple j of i, above i, has the cofactor j / i >= 2; j >= i * i once that cofactor is at least i. */
  lemma MultipleCofactor(j: int, i: int)
    requires 2 <= i < j && j % i == 0
    ensures 2 <= j / i && j % (j / i) == 0
    ensures j / i >= i ==> j >= i * i
  {
    Cofactor(j, i);
    if j / i >= i {
      MulMono(i, j / i, i, i);
    }
  }

  /** Divisibility is transitive. */
  lemma DividesTrans(j: int, i: int, d: int)
    requires d > 0 && i > 0
    ensures i % d == 0 && j % i == 0 ==> j % d == 0
  {
    if i % d == 0 && j % i == 0 {
      var a, b := i / d, j / i;
      assert i == d * a && j == i * b;
      assert j == d * (a * b);
      DividesMultiple(d, a * b);
    }
  }

  /** Crossing out the multiples of a prime i from i * i on sieves by i. */
  lemma SieveMark(before: seq<bool>, after: seq<bool>, n: int, i: int)
    requires 2 <= i && i * i <= n && Sieved(before, n, i) && before[i]
    requires |after| == n + 1
    requires forall t :: 2 <= t <= n ==> (after[t] <==> before[t] && !(i * i <= t && t % i == 0))
    ensures Sieved(after, n, i + 1)
  {
    forall j | 2 <= j <= n
      ensures after[j] <==> NoDivisorBelow(j, Min(i + 1, j))
    {
      SieveMarkOne(j, i, before[j], after[j]);
    }
  }

  /** The entry for one j: crossing it out when i * i <= j and i divides j sieves it by i as well. */
  lemma SieveMarkOne(j: int, i: int, was: bool, now: bool)
    requires 2 <= i && 2 <= j
    requires was <==> NoDivisorBelow(j, Min(i, j))
    requires now <==> was && !(i * i <= j && j % i == 0)
    ensures now <==> NoDivisorBelow(j, Min(i + 1, j))
  {
    if j > i && j % i == 0 {
      MultipleCofactor(j, i);
    }
  }

  /** A number i that is not prime has its multiples crossed out already. */
  lemma SieveSkip(p: seq<bool>, n: int, i: int)
    requires 2 <= i <= n && Sieved(p, n, i) && !p[i]
    ensures Sieved(p, n, i + 1)
  {
    var d0 :| 2 <= d0 < i && i % d0 == 0;
    forall j | 2 <= j <= n
      ensures p[j] <==> NoDivisorBelow(j, Min(i + 1, j))
    {
      DividesTrans(j, i, d0);
    }
  }

  /** Once i * i > n, the sieve holds exactly the primes. */
  lemma SieveDone(p: seq<bool>, n: int, i: int)
    requires 2 <= i && n < i * i && Sieved(p, n, i)
    ensures forall j :: 2 <= j <= n ==> (p[j] <==> Prime(j))
  {
    forall j | 2 <= j <= n
      ensures p[j] <==> Prime(j)
    {
      if i < j {
        if NoDivisorBelow(j, i) {
          NoLargeDivisor(j, i);
        }
      }
    }
  }

  /** The crossing-out loop: p[t] := false for t = i * i, i * i + i, ... up to n. */
  method CrossOut(prime: array<bool>, n: int, i: int)
    requires prime.Length == n + 1 && 2 <= i
    modifies prime
    ensures forall t :: 0 <= t <= n ==> prime[t] == (old(prime[t]) && !(i * i <= t && t % i == 0))
  {
    var j := i * i;
    ModUnique(j, i, i, 0);
    while j <= n
      invariant i * i <= j && j % i == 0
      invariant forall t :: 0 <= t <= n ==> prime[t] == (old(prime[t]) && !(i * i <= t < j && t % i == 0))
      decreases n - j
    {
      prime[j] := false;
      forall t | j < t < j + i
        ensures t % i != 0
      {
        ModUnique(t, i, j / i, t - j);
      }
      ModMultiple(j, 1, i);
      j := j + i;
    }
  }

  /** One pass of the outer loop: sieves by i, crossing out its multiples when i is still set. */
  method SieveStep(prime: array<bool>, n: int, i: int)
    requires 2 <= i && i * i <= n && Sieved(prime[..], n, i)
    modifies prime
    ensures Sieved(prime[..], n, i + 1)
  {
    MulMono(1, i, 2, i);
    if prime[i] {
      ghost var before := prime[..];
      CrossOut(prime, n, i);
      SieveMark(before, prime[..], n, i);
    } else {
      SieveSkip(prime[..], n, i);
    }
  }

  /** The outer loop: sieves by every i with i * i <= n, leaving exactly the primes set. */
  method CrossAll(prime: array<bool>, n: int)
    requires Sieved(prime[..], n, 2)
    modifies prime
    ensures forall j :: 2 <= j <= n ==> (prime[j] <==> Prime(j))
  {
    var i := 2;
    while i * i <= n
      invariant 2 <= i && Sieved(prime[..], n, i)
      decreases n - i
    {
      SieveStep(prime, n, i);
      i := i + 1;
    }
    SieveDone(prime[..], n, i);
  }

  /** The final loop: lists, in increasing order, the entries from 2 to n still set. */
  method Collect(prime: array<bool>, n: int) returns (primes: seq<int>)
    requires n >= 1 && prime.Length == n + 1
    ensures forall x :: x in primes <==> 2 <= x <= n && prime[x]
    ensures forall a, b :: 0 <= a < b < |primes| ==> primes[a] < primes[b]
  {
    primes := [];
    for k := 2 to n + 1
      invariant forall x :: x in primes <==> 2 <= x < k && prime[x]
      invariant forall a, b :: 0 <= a < b < |primes| ==> primes[a] < primes[b]
      invariant forall a :: 0 <= a < |primes| ==> primes[a] < k
    {
      if prime[k] {
        primes := primes + [k];
      }
    }
  }

  /**
   * `sieveOfEratosthenes`: crosses out the multiples of each i with
   * i * i <= n that is still set, then lists the entries still set. The
   * source indexes prime[1], so n must be at least 1.
   */
  method SieveOfEratosthenes(n: int) returns (primes: seq<int>)
    requires n >= 1
    ensures forall x :: x in primes <==> 2 <= x <= n && Prime(x)
    ensures forall a, b :: 0 <= a < b < |primes| ==> primes[a] < primes[b]
  {
    var prime := new bool[n + 1](k => k >= 2);
    CrossAll(prime, n);
    primes := Collect(prime, n);
  }

  // ---------------------------------------------------------------------------
  // Factorial, combinations and arrangements
  // ---------------------------------------------------------------------------

  /** n! */
  function Fact(n: nat): (f: nat)
    ensures f >= 1
  {
    if n == 0 then 1 else MulMono(1, n, 1, Fact(n - 1)); n * Fact(n - 1)
  }

  /** What `factorial` returns: 0 for negative n, otherwise n!. */
  function FactorialValue(n: int): int {
    if n < 0 then 0 else Fact(n)
  }

  /** `factorial`: 0 below 0, 1 up to 1, otherwise the product 2 * 3 * ... * n. */
  method Factorial(n: int) returns (r: int)
    ensures n < 0 ==> r == 0
    ensures n >= 0 ==> r == Fact(n)
  {
    if n < 0 {
      return 0;
    }
    if n <= 1 {
      return 1;
    }
    r := 1;
    for i := 2 to n + 1
      invariant r == Fact(i - 1)
    {
      r := r * i;
    }
  }

  /** Pascal's triangle: the number of ways to choose r of n things. */
  function Binom(n: nat, r: nat): nat
    requires r <= n
  {
    if r == 0 || r == n then 1 else Binom(n - 1, r - 1) + Binom(n - 1, r)
  }

  /** C(n, r) * r! * (n - r)! = n! */
  lemma {:induction false} BinomFact(n: nat, r: nat)
    requires r <= n
    ensures Binom(n, r) * (Fact(r) * Fact(n - r)) == Fact(n)
    decreases n
  {
    if r != 0 && r != n {
      BinomFact(n - 1, r - 1);
      BinomFact(n - 1, r);
      PascalProduct(Binom(n - 1, r - 1), Binom(n - 1, r), Fact(r - 1), Fact(n - 1 - r),
                    Fact(r), Fact(n - r), Fact(n - 1), r, n);
    }
  }

  /**
   * The arithmetic of one Pascal step: with D = r * A and C = (n - r) * B,
   * b1 * (A * C) = f and b2 * (D * B) = f give (b1 + b2) * (D * C) = n * f.
   */
  lemma PascalProduct(b1: int, b2: int, a: int, b: int, d: int, c: int, f: int, r: int, n: int)
    requires d == r * a && c == (n - r) * b
    requires b1 * (a * c) == f && b2 * (d * b) == f
    ensures (b1 + b2) * (d * c) == n * f
  {
    calc {
      (b1 + b2) * (d * c);
      b1 * (d * c) + b2 * (d * c);
      { assert b1 * (d * c) == r * (b1 * (a * c)); }
      r * f + b2 * (d * c);
      { assert b2 * (d * c) == (n - r) * (b2 * (d * b)); }
      r * f + (n - r) * f;
    }
  }

  /**
   * `combination`: 0 when r > n, 1 when r is 0 or n, otherwise
   * n! / (r! * (n - r)!) with `factorial`'s values; a negative r makes the
   * divisor 0 and the source divides by zero (`None`).
   */
  function Combination(n: int, r: int): (c: Option<int>)
    ensures c.None? <==> r < 0 && r < n
  {
    if r > n then Some(0)
    else if r == 0 || r == n then Some(1)
    else
      var d := FactorialValue(r) * FactorialValue(n - r);
      if d == 0 then None else Some(FactorialValue(n) / d)
  }

  /** For 0 <= r <= n, `combination` is the binomial coefficient; above n it is 0; below 0 it fails. */
  lemma CombinationIsBinom(n: int, r: int)
    ensures 0 <= r <= n ==> Combination(n, r) == Some(Binom(n, r))
    ensures r > n ==> Combination(n, r) == Some(0)
    ensures r < 0 && r < n ==> Combination(n, r) == None
  {
    if 0 < r < n {
      BinomFact(n, r);
      MulMono(1, Fact(r), 1, Fact(n - r));
      ExactDiv(Binom(n, r), Fact(r) * Fact(n - r));
    }
  }

  /** n * (n - 1) * ... * (n - r + 1), the number of ordered picks of r of n things. */
  function Falling(n: nat, r: nat): nat
    requires r <= n
  {
    if r == 0 then 1 else n * Falling(n - 1, r - 1)
  }

  /** n! = n * (n - 1) * ... * (n - r + 1) * (n - r)! */
  lemma {:induction false} FallingFact(n: nat, r: nat)
    requires r <= n
    ensures Falling(n, r) * Fact(n - r) == Fact(n)
    decreases r
  {
    if r > 0 {
      FallingFact(n - 1, r - 1);
      MulAssoc(n, Falling(n - 1, r - 1), Fact(n - r));
    }
  }

  /** `permutation`: 0 when r > n, otherwise n! / (n - r)! with `factorial`'s values. */
  function Permutation(n: int, r: int): int {
    if r > n then 0 else FactorialValue(n) / FactorialValue(n - r)
  }

  /**
   * For 0 <= r <= n, `permutation` is the number of ordered picks, and it
   * is r! times `combination`.
   */
  lemma PermutationIsFalling(n: int, r: int)
    requires 0 <= r <= n
    ensures Permutation(n, r) == Falling(n, r)
    ensures Permutation(n, r) == Binom(n, r) * Fact(r)
  {
    var p, g := Falling(n, r), Fact(n - r);
    FallingFact(n, r);
    ExactDiv(p, g);
    assert Permutation(n, r) == (p * g) / g;
    BinomFact(n, r);
    MulAssoc(Binom(n, r), Fact(r), g);
    CancelRight(Binom(n, r) * Fact(r), p, g);
  }

  /** (a * b) * c = a * (b * c) */
  lemma MulAssoc(a: int, b: int, c: int)
    ensures (a * b) * c == a * (b * c)
  {
  }

  /** A positive common right factor cancels. */
  lemma CancelRight(x: int, y: int, c: int)
    requires c > 0 && x * c == y * c
    ensures x == y
  {
    assert (x - y) * c == 0;
    MulBounds(x - y, c);
  }

  // ---------------------------------------------------------------------------
  // Exponentiation
  // ---------------------------------------------------------------------------

  /** b raised to the power e. */
  function Pow(b: int, e: nat): int {
    if e == 0 then 1 else b * Pow(b, e - 1)
  }

  /** b^(x + y) = b^x * b^y */
  lemma {:induction false} PowAdd(b: int, x: nat, y: nat)
    ensures Pow(b, x + y) == Pow(b, x) * Pow(b, y)
    decreases x
  {
    if x > 0 {
      PowAdd(b, x - 1, y);
      assert Pow(b, x + y) == b * Pow(b, x - 1 + y);
    }
  }

  /** (b * b)^k = b^(2k) */
  lemma {:induction false} PowSquare(b: int, k: nat)
    ensures Pow(b * b, k) == Pow(b, 2 * k)
    decreases k
  {
    if k > 0 {
      PowSquare(b, k - 1);
      assert Pow(b, 2 * k) == b * (b * Pow(b, 2 * k - 2));
    }
  }

  /** One squaring step: b^e = (b * b)^(e / 2), times b when e is odd. */
  lemma PowHalve(b: int, e: nat)
    ensures Pow(b, e) == (if e % 2 == 1 then b else 1) * Pow(b * b, e / 2)
  {
    PowSquare(b, e / 2);
    if e % 2 == 1 {
      assert Pow(b, e) == b * Pow(b, e - 1);
      assert e - 1 == 2 * (e / 2);
    } else {
      assert e == 2 * (e / 2);
    }
  }

  /**
   * `power`: square-and-multiply over the bits of `exp`; 1 when exp <= 0,
   * otherwise base^exp.
   */
  method Power(base: int, exp: int) returns (r: int)
    ensures exp <= 0 ==> r == 1
    ensures exp >= 0 ==> r == Pow(base, exp)
  {
    r := 1;
    var b, e := base, exp;
    if e < 0 {
      return;
    }
    while e > 0
      invariant e >= 0 && r * Pow(b, e) == Pow(base, exp)
    {
      PowHalve(b, e);
      if e % 2 == 1 {
        r := r * b;
      }
      b := b * b;
      e := e / 2;
    }
  }

  /** Reducing the left factor of a product first does not change its remainder. */
  lemma MulModLeft(x: int, y: int, m: int)
    requires m > 0
    ensures ((x % m) * y) % m == (x * y) % m
  {
    assert x * y == (x % m) * y + ((x / m) * y) * m;
    ModMultiple((x % m) * y, (x / m) * y, m);
  }

  /** Reducing the right factor of a product first does not change its remainder. */
  lemma MulModRight(x: int, y: int, m: int)
    requires m > 0
    ensures (x * (y % m)) % m == (x * y) % m
  {
    MulModLeft(y, x, m);
  }

  /** Reducing the base first does not change the remainder of a power. */
  lemma {:induction false} PowMod(x: int, k: nat, m: int)
    requires m > 0
    ensures Pow(x % m, k) % m == Pow(x, k) % m
    decreases k
  {
    if k > 0 {
      PowMod(x, k - 1, m);
      MulModRight(x % m, Pow(x % m, k - 1), m);
      MulModRight(x % m, Pow(x, k - 1), m);
      MulModLeft(x, Pow(x, k - 1), m);
    }
  }

  /** One step of the modular loop keeps result * base^exp the same modulo m. */
  lemma ModPowStep(r: int, b: int, e: nat, m: int)
    requires m > 0
    ensures ((if e % 2 == 1 then (r * b) % m else r) * Pow((b * b) % m, e / 2)) % m == (r * Pow(b, e)) % m
  {
    var k := e / 2;
    PowHalve(b, e);
    PowMod(b * b, k, m);
    MulModRight(r * b, Pow((b * b) % m, k), m);
    MulModRight(r * b, Pow(b * b, k), m);
    MulModRight(r, Pow((b * b) % m, k), m);
    MulModRight(r, Pow(b * b, k), m);
    MulModLeft(r * b, Pow((b * b) % m, k), m);
    assert r * Pow(b, e) == (if e % 2 == 1 then r * b else r) * Pow(b * b, k);
  }

  /**
   * The loop of `modularPower`, started from `result`: while exp > 0, an odd
   * exp multiplies result by base, and base is squared, reducing both with
   * Java's `%`. From non-negative values and a positive modulus it ends with
   * (result * base^exp) % mod.
   */
  method ModPowLoop(result: int, base: int, exp: int, mod: int) returns (r: int)
    requires mod != 0
    ensures exp <= 0 ==> r == result
    ensures exp > 0 && mod > 0 && base >= 0 && result >= 0 ==> r == (result * Pow(base, exp)) % mod
  {
    r := result;
    if exp <= 0 {
      return;
    }
    var b, e := base, exp;
    ghost var good := mod > 0 && base >= 0 && result >= 0;
    while e > 0
      invariant good ==> e >= 0 && b >= 0 && r >= 0
      invariant good ==> (r * Pow(b, e)) % mod == (result * Pow(base, exp)) % mod
      invariant good && e == 0 ==> r < mod
    {
      ghost var r0, b0, e0 := r, b, e;
      if JavaRem(e, 2) == 1 {
        r := JavaRem(r * b, mod);
      }
      b := JavaRem(b * b, mod);
      e := JavaDiv(e, 2);
      if good {
        ModPowIteration(r0, b0, e0, mod, r, b, e);
      }
    }
    if good {
      ModPowDone(r, b, e, mod, (result * Pow(base, exp)) % mod);
    }
  }

  /** When the loop stops, result * base^0 is reduced already, so it is the answer. */
  lemma ModPowDone(r: int, b: int, e: int, mod: int, want: int)
    requires mod > 0 && e == 0 && 0 <= r < mod && (r * Pow(b, e)) % mod == want
    ensures r == want
  {
    assert r * Pow(b, e) == r;
  }

  /** One pass of the modular loop, with Java's `%` and `/`, keeps its invariant. */
  lemma ModPowIteration(r: int, b: int, e: int, mod: int, r': int, b': int, e': int)
    requires mod > 0 && e > 0 && b >= 0 && r >= 0
    requires r' == (if JavaRem(e, 2) == 1 then JavaRem(r * b, mod) else r)
    requires b' == JavaRem(b * b, mod) && e' == JavaDiv(e, 2)
    ensures e' >= 0 && b' >= 0 && r' >= 0
    ensures (r' * Pow(b', e')) % mod == (r * Pow(b, e)) % mod
    ensures e' == 0 ==> r' < mod
  {
    JavaDivNonNegative(r * b, mod);
    JavaDivNonNegative(b * b, mod);
    JavaDivNonNegative(e, 2);
    ModPowStep(r, b, e, mod);
  }

  /**
   * `modularPower` as written: the result starts at 1, the base is reduced
   * with Java's `%`, then the square-and-multiply loop runs. The source
   * divides by a zero `mod`. For exp <= 0 the answer is 1 even when mod is
   * 1, where base^0 % 1 is 0.
   */
  method ModularPower(base: int, exp: int, mod: int) returns (r: int)
    requires mod != 0
    ensures exp <= 0 ==> r == 1
    ensures exp > 0 && mod > 0 && base >= 0 ==> r == Pow(base, exp) % mod
  {
    var b := JavaRem(base, mod);
    if mod > 0 && base >= 0 && exp > 0 {
      JavaDivNonNegative(base, mod);
      PowMod(base, exp, mod);
    }
    r := ModPowLoop(1, b, exp, mod);
  }

  /**
   * With exp = 0 and mod = 1, base^exp % mod is 0, whereas `ModularPower`
   * promises `exp <= 0 ==> r == 1`.
   */
  lemma ModularPowerZeroExponent(base: int)
    ensures Pow(base, 0) % 1 == 0
  {
  }

  /**
   * `modularPower` with the result started at 1 % mod, as intended: for
   * base >= 0, exp >= 0 and mod > 0 it is base^exp % mod, exp = 0 included.
   */
  method ModularPowerCorrected(base: int, exp: int, mod: int) returns (r: int)
    requires mod != 0
    ensures exp >= 0 && mod > 0 && base >= 0 ==> r == Pow(base, exp) % mod
  {
    var b := JavaRem(base, mod);
    var one := JavaRem(1, mod);
    if mod > 0 && base >= 0 && exp >= 0 {
      JavaDivNonNegative(base, mod);
      JavaDivNonNegative(1, mod);
      PowMod(base, exp, mod);
      MulModLeft(1, Pow(b, exp), mod);
    }
    r := ModPowLoop(one, b, exp, mod);
  }

  // ---------------------------------------------------------------------------
  // Integer square root
  // ---------------------------------------------------------------------------

  /** k squared, a term a quantifier over k can hang on. */
  function Sq(k: int): int {
    k * k
  }

  /** Squaring is monotone on non-negative numbers. */
  lemma SquareMono(a: int, b: int)
    requires 0 <= a && 0 <= b
    ensures a <= b ==> Sq(a) <= Sq(b)
  {
    if a <= b {
      MulMono(a, b, a, b);
    }
  }

  /**
   * `sqrtInt`: 0 for 0; for positive n a binary search over [1, n] that
   * returns the middle point when its square is n and otherwise the upper
   * end once the range is empty, which is the floor of the square root; for
   * negative n the search range [1, n] is empty from the start and n itself
   * comes back.
   */
  method SqrtInt(n: int) returns (r: int)
    ensures n >= 0 ==> 0 <= r && Sq(r) <= n < Sq(r + 1)
    ensures n < 0 ==> r == n
  {
    if n <= 0 {
      return n;
    }
    var left, right := 1, n;
    while left <= right
      invariant 1 <= left <= right + 1 && 0 <= right <= n
      invariant Sq(left - 1) <= n < Sq(right + 1)
      decreases right - left
    {
      var mid := left + JavaDiv(right - left, 2);
      JavaDivNonNegative(right - left, 2);
      if mid * mid == n {
        return mid;
      } else if mid * mid < n {
        left := mid + 1;
      } else {
        right := mid - 1;
      }
    }
    r := right;
  }

  /** A non-negative number has at most one square root between r and r + 1. */
  lemma SquareRootUnique(k: int, r: int, n: int)
    requires 0 <= k && 0 <= r && Sq(r) <= n < Sq(r + 1)
    ensures Sq(k) == n ==> k == r
  {
    SquareMono(r + 1, k);
    SquareMono(k + 1, r);
  }

  /** `isPerfectSquare`: false below 0, otherwise whether the integer square root squares back to n. */
  method IsPerfectSquare(n: int) returns (r: bool)
    ensures r <==> n >= 0 && exists k :: 0 <= k && Sq(k) == n
  {
    if n < 0 {
      return false;
    }
    var s := SqrtInt(n);
    r := s * s == n;
    forall k | 0 <= k
      ensures Sq(k) == n ==> k == s
    {
      SquareRootUnique(k, s, n);
    }
  }

  // ---------------------------------------------------------------------------
  // Decimal digits
  // ---------------------------------------------------------------------------

  /** Every element is a decimal digit. */
  predicate IsDigits(ds: seq<int>) {
    forall i :: 0 <= i < |ds| ==> 0 <= ds[i] < 10
  }

  /** The decimal digits of m, most significant first, with no leading zero (none at all for 0). */
  function Digits(m: nat): (ds: seq<int>)
    ensures IsDigits(ds)
    ensures m > 0 ==> |ds| > 0 && ds[0] != 0
  {
    if m == 0 then [] else Digits(m / 10) + [m % 10]
  }

  /** The number whose decimal digits, most significant first, are ds. */
  function FromDigits(ds: seq<int>): int {
    if ds == [] then 0 else 10 * FromDigits(ds[..|ds| - 1]) + ds[|ds| - 1]
  }

  /** Appending a digit shifts the number one place to the left. */
  lemma FromDigitsSnoc(ds: seq<int>, d: int)
    ensures FromDigits(ds + [d]) == 10 * FromDigits(ds) + d
  {
    assert (ds + [d])[..|ds|] == ds;
  }

  /** Digits make a non-negative number. */
  lemma {:induction false} FromDigitsNonNegative(ds: seq<int>)
    requires IsDigits(ds)
    ensures FromDigits(ds) >= 0
  {
    if ds != [] {
      FromDigitsNonNegative(ds[..|ds| - 1]);
    }
  }

  /** Reading back the digits of m gives m. */
  lemma {:induction false} FromDigitsOfDigits(m: nat)
    ensures FromDigits(Digits(m)) == m
  {
    if m > 0 {
      FromDigitsOfDigits(m / 10);
      FromDigitsSnoc(Digits(m / 10), m % 10);
    }
  }

  /** The last digit and the rest of 10 * q + d. */
  lemma DivModTen(y: int, q: int, d: int)
    requires y == 10 * q + d && 0 <= d < 10
    ensures y % 10 == d && y / 10 == q
  {
    ModUnique(y, 10, q, d);
  }

  /** Two digit sequences of the same length that make the same number are equal. */
  lemma {:induction false} FromDigitsInjective(x: seq<int>, y: seq<int>)
    requires |x| == |y| && IsDigits(x) && IsDigits(y)
    requires FromDigits(x) == FromDigits(y)
    ensures x == y
    decreases |x|
  {
    if x != [] {
      var px, py := x[..|x| - 1], y[..|y| - 1];
      var v := FromDigits(x);
      DivModTen(v, FromDigits(px), x[|x| - 1]);
      DivModTen(v, FromDigits(py), y[|y| - 1]);
      FromDigitsInjective(px, py);
      assert x == px + [x[|x| - 1]] && y == py + [y[|y| - 1]];
    }
  }

  /** Taking off the last digit: the digits of m are those of m / 10, then m % 10. */
  lemma DigitsStep(m: nat)
    requires m > 0
    ensures Digits(m) == Digits(m / 10) + [m % 10]
  {
  }

  /**
   * `sumOfDigits`: the sum of the decimal digits of |n|, taking n % 10 and
   * dividing by 10 until nothing is left.
   */
  method SumOfDigits(n: int) returns (s: int)
    ensures s == Sum(Digits(Abs(n)))
  {
    s := 0;
    var m := Abs(n);
    while m > 0
      invariant 0 <= m
      invariant s + Sum(Digits(m)) == Sum(Digits(Abs(n)))
    {
      DigitsStep(m);
      SumAppend(Digits(m / 10), m % 10);
      s := s + m % 10;
      m := m / 10;
    }
  }

  /** Casting out nines: the digit sum of m leaves the same remainder modulo 9 as m. */
  lemma {:induction false} DigitSumModNine(m: nat)
    ensures Sum(Digits(m)) % 9 == m % 9
  {
    if m > 0 {
      DigitSumModNine(m / 10);
      SumAppend(Digits(m / 10), m % 10);
      NinesStep(m, m / 10, m % 10, Sum(Digits(m / 10)));
    }
  }

  /** If t and q agree modulo 9, so do t + d and 10 * q + d. */
  lemma NinesStep(m: int, q: int, d: int, t: int)
    requires m == 10 * q + d && t % 9 == q % 9
    ensures (t + d) % 9 == m % 9
  {
    assert m == (q + d) + q * 9;
    ModMultiple(q + d, q, 9);
    assert t + d == (q + d) + (t / 9 - q / 9) * 9;
    ModMultiple(q + d, t / 9 - q / 9, 9);
  }

  /**
   * `isPalindromeNumber`: builds the number whose digits are those of |n|
   * read backwards and compares it with n; so a negative n never matches,
   * and a non-negative n matches exactly when its digits read the same
   * backwards.
   */
  method IsPalindromeNumber(n: int) returns (r: bool)
    ensures r <==> n >= 0 && Digits(n) == Reversed(Digits(n))
  {
    var reversed := 0;
    var m := Abs(n);
    ghost var done: seq<int> := [];
    while m > 0
      invariant 0 <= m && IsDigits(done)
      invariant reversed == FromDigits(done)
      invariant Digits(Abs(n)) == Digits(m) + Reversed(done)
    {
      ReverseDigitStep(m, done, Digits(Abs(n)));
      reversed := reversed * 10 + m % 10;
      done := done + [m % 10];
      m := m / 10;
    }
    r := n == reversed;
    PalindromeByReversal(n, done);
  }

  /** One pass of the reversing loop moves the last digit of m to the end of `done`. */
  lemma ReverseDigitStep(m: nat, done: seq<int>, all: seq<int>)
    requires m > 0 && IsDigits(done)
    requires all == Digits(m) + Reversed(done)
    ensures IsDigits(done + [m % 10])
    ensures FromDigits(done + [m % 10]) == FromDigits(done) * 10 + m % 10
    ensures all == Digits(m / 10) + Reversed(done + [m % 10])
  {
    var d := m % 10;
    DigitsStep(m);
    FromDigitsSnoc(done, d);
    IsDigitsSnoc(done, d);
    SnocReversed(Digits(m / 10), done, d);
  }

  /** Appending a digit to digits gives digits. */
  lemma IsDigitsSnoc(ds: seq<int>, d: int)
    requires IsDigits(ds) && 0 <= d < 10
    ensures IsDigits(ds + [d])
  {
    forall i | 0 <= i < |ds| + 1
      ensures 0 <= (ds + [d])[i] < 10
    {
      if i < |ds| {
        assert (ds + [d])[i] == ds[i];
      }
    }
  }

  /** Moving d from the end of `done` to the end of the prefix keeps the whole. */
  lemma SnocReversed(p: seq<int>, done: seq<int>, d: int)
    ensures p + Reversed(done + [d]) == (p + [d]) + Reversed(done)
  {
    ReversedConcat(done, [d]);
    assert Reversed([d]) == [d];
  }

  /**
   * Once all digits of |n| are reversed into `done`, n equals the number
   * they make exactly when n is non-negative and its digits read the same
   * backwards.
   */
  lemma PalindromeByReversal(n: int, done: seq<int>)
    requires IsDigits(done) && Digits(Abs(n)) == Reversed(done)
    ensures n == FromDigits(done) <==> n >= 0 && Digits(n) == Reversed(Digits(n))
  {
    var ds := Digits(Abs(n));
    ReversedTwice(done);
    FromDigitsNonNegative(done);
    if n >= 0 {
      FromDigitsOfDigits(n);
      if n == FromDigits(done) {
        FromDigitsInjective(done, ds);
      }
    }
  }
}
