/**
 * The trial-division helpers of prime.hpp. The `std::sqrt(number) + 1` loop
 * bound, with `i < limit`, is the integer test `i * i <= number`.
 */
module Prime {
  import opened Wrappers
  import opened Cpp

  /** `n` is at least 2 and no number strictly between 1 and `n` divides it. */
  ghost predicate Prime(n: int) {
    n >= 2 && forall d :: 2 <= d < n ==> n % d != 0
  }

  /** `d` is the least divisor of `m` above 1, and it is prime. */
  ghost predicate LeastPrimeFactorOf(m: int, d: int) {
    Prime(d) && m % d == 0 && forall e :: 2 <= e < d ==> m % e != 0
  }

  /** No odd number from 3 up to `k` (exclusive) divides `m`. */
  ghost predicate NoOddDivisorBelow(m: int, k: int) {
    forall e :: 3 <= e < k && e % 2 == 1 ==> m % e != 0
  }

  /** An odd divisor of `m`, at least 3, whose square is at most `m`: what the loops of prime.hpp can find. */
  ghost predicate OddDivisorWithinRoot(m: int, d: int) {
    3 <= d && d % 2 == 1 && d * d <= m && m % d == 0
  }

  predicate Sorted(s: seq<int>) {
    forall i, j :: 0 <= i < j < |s| ==> s[i] <= s[j]
  }

  function Product(s: seq<int>): int {
    if s == [] then 1 else Product(s[..|s| - 1]) * s[|s| - 1]
  }

  /** The sorted prime factorisation of `n`. */
  ghost predicate IsFactorization(factors: seq<int>, n: int) {
    && (forall k :: 0 <= k < |factors| ==> Prime(factors[k]))
    && Sorted(factors)
    && Product(factors) == n
  }

  function Negated(s: seq<int>): (r: seq<int>)
    ensures |r| == |s| && forall k :: 0 <= k < |s| ==> r[k] == -s[k]
  {
    seq(|s|, k requires 0 <= k < |s| => -s[k])
  }

  // ---------------------------------------------------------------------
  // Arithmetic facts about divisibility

  lemma MulAtLeast(x: int, d: int)
    requires d > 0
    ensures x >= 1 ==> x * d >= d
    ensures x <= -1 ==> x * d <= -d
  {
    if x >= 1 {
      MulMonotone(1, x, d);
    }
    if x <= -1 {
      MulMonotone(x, -1, d);
    }
  }

  lemma MultipleMod(d: int, k: int)
    requires d > 0
    ensures (d * k) % d == 0 && (d * k) / d == k
  {
    var q := (d * k) / d;
    var r := (d * k) % d;
    assert d * k == d * q + r && 0 <= r < d;
    assert (k - q) * d == r;
    MulAtLeast(k - q, d);
  }

  /** The cofactor `n / d` of a divisor `d` of `n` divides `n` too, and is at least 2 when `d < n`. */
  lemma Cofactor(n: int, d: int)
    requires n >= 1 && d >= 1 && n % d == 0
    ensures n / d >= 1 && n == d * (n / d) && n % (n / d) == 0
    ensures d < n ==> n / d >= 2
  {
    var q := n / d;
    assert n == d * q;
    MulAtLeast(q, d);
    MultipleMod(q, d);
    assert q * d == d * q;
  }

  lemma DividesTransitive(d: int, a: int, b: int)
    requires d > 0 && a > 0 && a % d == 0 && b % a == 0
    ensures b % d == 0
  {
    var x, y := a / d, b / a;
    assert a == d * x;
    assert b == a * y;
    assert b == d * (x * y);
    MultipleMod(d, x * y);
  }

  lemma SquareMonotone(d: int, i: int)
    requires i >= 0
    ensures i <= d ==> i * i <= d * d
  {
    if i <= d {
      MulMonotone(i, d, i);
      MulMonotone(i, d, d);
    }
  }

  lemma ProductAtLeastSquare(a: int, b: int, i: int)
    requires i >= 0
    ensures a >= i && b >= i ==> a * b >= i * i
  {
    if a >= i && b >= i {
      MulMonotone(i, a, i);
      MulMonotone(i, b, a);
    }
  }

  /** If no number in [2, i) divides `n` and `i * i > n`, then `n` is prime. */
  lemma NoSmallDivisorIsPrime(n: int, i: int)
    requires n >= 2 && i >= 2 && i * i > n
    requires forall d :: 2 <= d < i ==> n % d != 0
    ensures Prime(n)
  {
    forall d | 2 <= d < n
      ensures n % d != 0
    {
      if n % d == 0 {
        Cofactor(n, d);
        ProductAtLeastSquare(d, n / d, i);
      }
    }
  }

  /** The least divisor above 1 of a number is prime. */
  lemma LeastDivisorIsPrime(m: int, d: int)
    requires m >= 2 && 2 <= d && m % d == 0
    requires forall e :: 2 <= e < d ==> m % e != 0
    ensures LeastPrimeFactorOf(m, d)
  {
    forall e | 2 <= e < d
      ensures d % e != 0
    {
      if d % e == 0 {
        DividesTransitive(e, d, m);
      }
    }
  }

  /** No even number divides an odd one. */
  lemma EvenDoesNotDivideOdd(n: int, d: int)
    requires n % 2 == 1 && d > 0 && d % 2 == 0
    ensures n % d != 0
  {
    if n % d == 0 {
      DividesTransitive(2, d, n);
    }
  }

  /** Every divisor of an odd number is odd. */
  lemma DivisorOfOddIsOdd(n: int, d: int)
    requires n % 2 == 1 && d > 0 && n % d == 0
    ensures d % 2 == 1
  {
    if d % 2 == 0 {
      EvenDoesNotDivideOdd(n, d);
    }
  }

  /** An odd number that is not prime has an odd divisor whose square is at most the number. */
  lemma OddCompositeHasSmallOddDivisor(m: int)
    requires m >= 2 && m % 2 == 1 && !Prime(m)
    ensures exists d :: OddDivisorWithinRoot(m, d)
  {
    var d :| 2 <= d < m && m % d == 0;
    Cofactor(m, d);
    var q := m / d;
    var s := if d <= q then d else q;
    MulMonotone(s, d, s);
    MulMonotone(s, q, d);
    assert s * s <= m;
    DivisorOfOddIsOdd(m, s);
    assert OddDivisorWithinRoot(m, s);
  }

  lemma PrimeSmallCases(n: int)
    ensures !Prime(0) && !Prime(1) && Prime(2)
    ensures n % 2 == 0 && n != 2 ==> !Prime(n)
  {
  }

  // ---------------------------------------------------------------------
  // is_prime

  /** An odd `n` with no divisor below the odd `i`, and not divisible by `i`, has none below `i + 2`. */
  lemma NextOddCandidate(n: int, i: int)
    requires n % 2 == 1 && 3 <= i && i % 2 == 1 && n % i != 0 && NoDivisorBelow(n, i)
    ensures NoDivisorBelow(n, i + 2)
  {
    EvenDoesNotDivideOdd(n, i + 1);
  }

  /** A divisor `i >= 2` with `i * i <= n` is a proper divisor, so `n` is not prime. */
  lemma DivisorWithinRootRefutesPrime(n: int, i: int)
    requires 2 <= i && i * i <= n && n % i == 0
    ensures !Prime(n)
  {
    MulMonotone(2, i, i);
  }

  /** `is_prime`, prime.hpp:6-26; a negative argument is judged by its absolute value. */
  method IsPrime(n: int) returns (b: bool)
    ensures b == Prime(Abs(n))
    decreases if n < 0 then 1 else 0
  {
    if n < 0 {
      b := IsPrime(-n);
      return;
    }
    if n == 0 || n == 1 {
      return false;
    }
    if n == 2 {
      return true;
    }
    if n % 2 == 0 {
      return false;
    }
    var i := 3;
    while i * i <= n
      invariant 3 <= i && i % 2 == 1
      invariant NoDivisorBelow(n, i)
    {
      if n % i == 0 {
        DivisorWithinRootRefutesPrime(n, i);
        return false;
      }
      NextOddCandidate(n, i);
      i := i + 2;
    }
    NoSmallDivisorIsPrime(n, i);
    return true;
  }

  // ---------------------------------------------------------------------
  // first_divisor

  /** The first odd `i` from 3 that divides `n`, within its root, is least among the odd divisors and, for odd `n`, the least prime factor. */
  lemma FoundOddDivisor(n: int, i: int)
    requires 3 <= i && i % 2 == 1 && i * i <= n && n % i == 0
    requires NoOddDivisorBelow(n, i)
    ensures OddDivisorWithinRoot(n, i)
    ensures n % 2 == 1 ==> LeastPrimeFactorOf(n, i)
  {
    if n % 2 == 1 {
      forall e | 2 <= e < i
        ensures n % e != 0
      {
        if e % 2 == 0 {
          EvenDoesNotDivideOdd(n, e);
        }
      }
      assert n >= 2 by {
        assert i * 3 <= i * i;
      }
      LeastDivisorIsPrime(n, i);
    }
  }

  /** Skipping the even `i + 1`: no odd divisor below `i + 2` once `i` itself does not divide. */
  lemma NextOddDivisorCandidate(n: int, i: int)
    requires i % 2 == 1 && n % i != 0 && NoOddDivisorBelow(n, i)
    ensures NoOddDivisorBelow(n, i + 2)
  {
  }

  /** When the loop of `first_divisor` runs out, `n` has no odd divisor within its root. */
  lemma NoOddDivisorWithinRoot(n: int, i: int)
    requires 3 <= i && i * i > n
    requires NoOddDivisorBelow(n, i)
    ensures forall d :: !OddDivisorWithinRoot(n, d)
  {
    forall d
      ensures !OddDivisorWithinRoot(n, d)
    {
      SquareMonotone(d, i);
    }
  }

  /**
   * `first_divisor`, prime.hpp:28-41. A prime (in absolute value) is its own
   * result; otherwise the first odd `i` from 3 with `i * i <= |n|` that
   * divides, with the sign of `n`. When no such `i` exists the function
   * falls off its end without a return value; that case is `None`.
   */
  method FirstDivisor(n: int) returns (r: Option<int>)
    ensures Prime(Abs(n)) ==> r == Some(n)
    ensures !Prime(Abs(n)) ==> (r.Some? <==> exists d :: OddDivisorWithinRoot(Abs(n), d))
    ensures !Prime(Abs(n)) && r.Some? ==>
      && (r.value < 0 <==> n < 0)
      && OddDivisorWithinRoot(Abs(n), Abs(r.value))
      && NoOddDivisorBelow(Abs(n), Abs(r.value))
    ensures Abs(n) >= 2 && Abs(n) % 2 == 1 ==> r.Some? && LeastPrimeFactorOf(Abs(n), Abs(r.value))
    decreases if n < 0 then 1 else 0
  {
    if n < 0 {
      var positive := FirstDivisor(-n);
      r := if positive.Some? then Some(0 - positive.value) else None;
      return;
    }
    var prime := IsPrime(n);
    if prime {
      assert LeastPrimeFactorOf(n, n);
      return Some(n);
    }
    var i := 3;
    while i * i <= n
      invariant 3 <= i && i % 2 == 1
      invariant NoOddDivisorBelow(n, i)
    {
      if n % i == 0 {
        FoundOddDivisor(n, i);
        return Some(i);
      }
      NextOddDivisorCandidate(n, i);
      i := i + 2;
    }
    NoOddDivisorWithinRoot(n, i);
    if n >= 2 && n % 2 == 1 {
      OddCompositeHasSmallOddDivisor(n);
    }
    return None;
  }

  /**
   * The least prime factor of `n`, with the sign of `n`: `first_divisor`
   * with the factor 2 tried before the odd candidates.
   */
  method LeastPrimeFactor(n: int) returns (d: int)
    requires Abs(n) >= 2
    ensures (d < 0 <==> n < 0) && LeastPrimeFactorOf(Abs(n), Abs(d))
    decreases if n < 0 then 1 else 0
  {
    if n < 0 {
      var positive := LeastPrimeFactor(-n);
      assert Abs(-positive) == Abs(positive) && Abs(n) == -n;
      return -positive;
    }
    if n % 2 == 0 {
      LeastDivisorIsPrime(n, 2);
      return 2;
    }
    var i := 3;
    while i * i <= n
      invariant 3 <= i && i % 2 == 1
      invariant NoDivisorBelow(n, i)
    {
      if n % i == 0 {
        LeastDivisorIsPrime(n, i);
        return i;
      }
      NextOddCandidate(n, i);
      i := i + 2;
    }
    NoSmallDivisorIsPrime(n, i);
    MultipleMod(n, 1);
    return n;
  }

  /** 4 has no odd divisor, so `first_divisor(4)` has no value; 12 yields 3 although 2 divides it. */
  lemma FirstDivisorOnEvenNumbers()
    ensures !Prime(4) && !exists d :: OddDivisorWithinRoot(4, d)
    ensures !Prime(12) && OddDivisorWithinRoot(12, 3) && LeastPrimeFactorOf(12, 2)
  {
    assert 4 % 2 == 0;
    forall d
      ensures !OddDivisorWithinRoot(4, d)
    {
      SquareMonotone(d, 3);
    }
    assert 12 % 2 == 0;
    LeastDivisorIsPrime(12, 2);
  }

  /** `first_divisor` called on 12 and on 4: 3 and no value, where the least prime factor is 2 for both. */
  method FirstDivisorOnEvenExamples() returns (twelve: Option<int>, four: Option<int>)
    ensures twelve == Some(3) && four == None
    ensures LeastPrimeFactorOf(12, 2) && LeastPrimeFactorOf(4, 2)
  {
    FirstDivisorOnEvenNumbers();
    twelve := FirstDivisor(12);
    four := FirstDivisor(4);
    OnlyOddDivisorWithinRootOfTwelve(Abs(twelve.value));
    assert 4 % 2 == 0;
    LeastDivisorIsPrime(4, 2);
  }

  /** 3 is the only odd candidate from 3 up to the root of 12 that divides it. */
  lemma OnlyOddDivisorWithinRootOfTwelve(d: int)
    requires OddDivisorWithinRoot(12, d)
    ensures d == 3
  {
    SquareMonotone(d, 5);
  }

  // ---------------------------------------------------------------------
  // prime_factors

  lemma ProductAppend(s: seq<int>, x: int)
    ensures Product(s + [x]) == Product(s) * x
  {
    assert (s + [x])[..|s|] == s;
  }

  /** A non-empty product of numbers that are all at least 2 is at least 2. */
  lemma {:induction false} ProductOfPrimesAtLeastTwo(s: seq<int>)
    requires |s| > 0 && forall k :: 0 <= k < |s| ==> Prime(s[k])
    ensures Product(s) >= 2
  {
    var init := s[..|s| - 1];
    if |init| > 0 {
      ProductOfPrimesAtLeastTwo(init);
      assert Product(init) * s[|s| - 1] >= 2 * s[|s| - 1];
    }
  }

  /** The only prime factorisation of 1 is empty: `prime_factors(1)` is `{}`. */
  lemma FactorizationOfOne(factors: seq<int>)
    requires IsFactorization(factors, 1)
    ensures factors == []
  {
    if factors != [] {
      ProductOfPrimesAtLeastTwo(factors);
    }
  }

  /** One step of the division loops: `number` is divided by a factor `i` that is pushed. */
  lemma DivideStep(factors: seq<int>, number: int, i: int, n: int)
    requires i > 0 && number % i == 0 && Product(factors) * number == n
    ensures Product(factors + [i]) * (number / i) == n
  {
    ProductAppend(factors, i);
    var q := number / i;
    assert number == i * q;
    calc {
      Product(factors + [i]) * q;
      (Product(factors) * i) * q;
      Product(factors) * (i * q);
      n;
    }
  }

  lemma QuotientKeepsNoSmallDivisor(number: int, i: int, bound: int)
    requires i > 0 && number > 0 && number % i == 0
    requires forall d :: 2 <= d < bound ==> number % d != 0
    ensures forall d :: 2 <= d < bound ==> (number / i) % d != 0
  {
    Cofactor(number, i);
    var q := number / i;
    forall d | 2 <= d < bound
      ensures q % d != 0
    {
      if q % d == 0 {
        DividesTransitive(d, q, number);
      }
    }
  }

  /** No number in [2, bound) divides `x`. */
  ghost predicate NoDivisorBelow(x: int, bound: int) {
    forall d :: 2 <= d < bound ==> x % d != 0
  }

  /** `factors` is sorted and holds primes no larger than `bound`. */
  ghost predicate SortedPrimesUpTo(factors: seq<int>, bound: int) {
    Sorted(factors) && forall k :: 0 <= k < |factors| ==> Prime(factors[k]) && factors[k] <= bound
  }

  /** One pass of the inner division loop: `i` is pushed and divided out of `number`. */
  lemma DivideOutStep(factors: seq<int>, number: int, i: int, n: int)
    requires 3 <= i && number >= 1 && number % 2 == 1 && number % i == 0
    requires Product(factors) * number == n
    requires NoDivisorBelow(number, i) && SortedPrimesUpTo(factors, i)
    ensures var q := number / i;
      && 1 <= q < number && q % 2 == 1
      && Product(factors + [i]) * q == n
      && NoDivisorBelow(q, i) && SortedPrimesUpTo(factors + [i], i)
  {
    QuotientBounds(number, i);
    DivideStep(factors, number, i, n);
    QuotientKeepsNoSmallDivisor(number, i, i);
    AppendLeastFactor(factors, number, i, i);
  }

  /** Dividing an odd `number` by a divisor `i >= 3` leaves a smaller odd quotient. */
  lemma QuotientBounds(number: int, i: int)
    requires 3 <= i && number >= 1 && number % 2 == 1 && number % i == 0
    ensures 1 <= number / i < number && (number / i) % 2 == 1
  {
    var q := number / i;
    Cofactor(number, i);
    MulMonotone(3, i, q);
    DivisorOfOddIsOdd(number, q);
  }

  /** The least divisor `d` of `number`, appended to smaller sorted primes, keeps them sorted primes. */
  lemma AppendLeastFactor(factors: seq<int>, number: int, d: int, bound: int)
    requires 2 <= d <= bound && number >= 2 && number % d == 0 && NoDivisorBelow(number, d)
    requires SortedPrimesUpTo(factors, d)
    ensures SortedPrimesUpTo(factors + [d], bound)
  {
    LeastDivisorIsPrime(number, d);
  }

  /** Moving to the next odd candidate once `i` no longer divides `number`. */
  lemma NextCandidate(factors: seq<int>, number: int, i: int)
    requires 3 <= i && i % 2 == 1 && number % 2 == 1 && number % i != 0
    requires NoDivisorBelow(number, i) && SortedPrimesUpTo(factors, i)
    ensures NoDivisorBelow(number, i + 2) && SortedPrimesUpTo(factors, i + 1)
  {
    EvenDoesNotDivideOdd(number, i + 1);
  }

  /** What remains after trial division is 1 or a prime no smaller than every factor found. */
  lemma FinishFactorization(factors: seq<int>, number: int, i: int, n: int)
    requires 3 <= i && 1 <= number < i * i && number % 2 == 1
    requires Product(factors) * number == n
    requires NoDivisorBelow(number, i) && SortedPrimesUpTo(factors, i - 1)
    ensures number > 2 ==> IsFactorization(factors + [number], n)
    ensures number <= 2 ==> IsFactorization(factors, n)
  {
    if number > 2 {
      RemainderIsPrime(number, i);
      AppendLeastFactor(factors, number, number, number);
      ProductAppend(factors, number);
    } else {
      assert number == 1;
    }
  }

  /** What is left after the loop, if above 2, is a prime at least `i`. */
  lemma RemainderIsPrime(number: int, i: int)
    requires 3 <= i && 2 < number < i * i && NoDivisorBelow(number, i)
    ensures Prime(number) && number >= i && NoDivisorBelow(number, number)
  {
    NoSmallDivisorIsPrime(number, i);
    MultipleMod(number, 1);
  }

  /**
   * `prime_factors`, prime.hpp:43-68. A negative argument gets the factors
   * of its absolute value, each negated. For 0 the first loop never ends, so
   * `n != 0` is required.
   */
  method PrimeFactors(n: int) returns (factors: seq<int>)
    requires n != 0
    ensures n > 0 ==> IsFactorization(factors, n)
    ensures n < 0 ==> IsFactorization(Negated(factors), -n)
    decreases if n < 0 then 1 else 0
  {
    if n < 0 {
      var positive := PrimeFactors(-n);
      var result := positive;
      var k := 0;
      while k < |result|
        invariant 0 <= k <= |result| == |positive|
        invariant forall j :: 0 <= j < k ==> result[j] == -positive[j]
        invariant forall j :: k <= j < |result| ==> result[j] == positive[j]
      {
        result := result[k := result[k] - result[k] * 2];
        k := k + 1;
      }
      assert Negated(result) == positive;
      return result;
    }
    factors := [];
    var number := n;
    while number % 2 == 0
      invariant number >= 1 && Product(factors) * number == n
      invariant forall k :: 0 <= k < |factors| ==> factors[k] == 2
      decreases number
    {
      DivideStep(factors, number, 2, n);
      factors := factors + [2];
      number := number / 2;
    }
    var oddPart := number;
    var i := 3;
    while i * i <= oddPart
      invariant 3 <= i && i % 2 == 1
      invariant 1 <= number <= oddPart && number % 2 == 1
      invariant Product(factors) * number == n
      invariant NoDivisorBelow(number, i)
      invariant SortedPrimesUpTo(factors, i - 1)
    {
      while number % i == 0
        invariant 1 <= number <= oddPart && number % 2 == 1
        invariant Product(factors) * number == n
        invariant NoDivisorBelow(number, i)
        invariant SortedPrimesUpTo(factors, i)
        decreases number
      {
        DivideOutStep(factors, number, i, n);
        factors := factors + [i];
        number := number / i;
      }
      NextCandidate(factors, number, i);
      i := i + 2;
    }
    FinishFactorization(factors, number, i, n);
    if number > 2 {
      factors := factors + [number];
    }
  }
}
