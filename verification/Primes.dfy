/** Primes: what htab_create looks for, and why a prime table size makes double hashing work. */
module Primes {
  import opened Bytes

  ghost predicate IsPrime(n: nat) {
    n >= 2 && forall d :: 2 <= d < n ==> n % d != 0
  }

  // ---------------------------------------------------------------- arithmetic

  lemma MulMono(a: nat, b: nat, c: nat)
    requires a <= b
    ensures a * c <= b * c
  {
  }

  lemma MultipleMod(a: nat, q: nat)
    requires a > 0
    ensures (a * q) % a == 0
  {
    var t, r := (a * q) / a, (a * q) % a;
    QuotientIs(a, q, t, r);
  }

  lemma QuotientIs(a: nat, q: nat, t: nat, r: nat)
    requires a * q == a * t + r && r < a
    ensures q == t && r == 0
  {
    NextMultiple(a, t, q);
    NextMultiple(a, q, t);
  }

  lemma NextMultiple(a: nat, x: nat, y: nat)
    ensures x < y ==> a * x + a <= a * y
  {
    if x < y { MulMono(x + 1, y, a); }
  }

  /** A composite odd number has an odd divisor no larger than its root. */
  lemma SmallDivisor(n: nat) returns (d: nat)
    requires n % 2 == 1 && n >= 3 && !IsPrime(n)
    ensures 3 <= d < n && d % 2 == 1 && d * d <= n && n % d == 0
  {
    var a, b := Factors(n);
    Cofactor(n, a, b);
    OddFactors(n, a, b);
    SmallerSquare(n, a, b);
    d := if a <= b then a else b;
  }

  lemma Factors(n: nat) returns (a: nat, b: nat)
    requires n >= 3 && !IsPrime(n)
    ensures 2 <= a < n && n == a * b && n % a == 0
  {
    a :| 2 <= a < n && n % a == 0;
    b := n / a;
  }

  lemma Cofactor(n: nat, a: nat, b: nat)
    requires 2 <= a < n && n == a * b
    ensures 2 <= b < n && n % b == 0
  {
    NextMultiple(b, 1, a);
    assert b != 0 && b != 1;
    MultipleMod(b, a);
  }

  lemma SmallerSquare(n: nat, a: nat, b: nat)
    requires n == a * b
    ensures a <= b ==> a * a <= n
    ensures b <= a ==> b * b <= n
  {
    if a <= b { MulMono(a, b, a); } else { MulMono(b, a, b); }
  }

  lemma OddFactors(n: nat, a: nat, b: nat)
    requires n == a * b && n % 2 == 1
    ensures a % 2 == 1 && b % 2 == 1
  {
    EvenTimes(a, b);
    EvenTimes(b, a);
  }

  lemma EvenTimes(a: nat, b: nat)
    ensures a % 2 == 0 ==> (a * b) % 2 == 0
  {
    if a % 2 == 0 { assert a * b == 2 * ((a / 2) * b); }
  }

  // ---------------------------------------------------------------- isprime

  /** Some trial divider below `n` has a square, in 32 bits, that reaches `n`. */
  ghost predicate SquareReaches(n: nat) {
    exists d: nat :: Reaches(n, d)
  }

  ghost predicate Reaches(n: nat, d: nat) {
    3 <= d < n && d % 2 == 1 && (d * d) % WORD >= n
  }

  /** What isprime answers for an odd number. */
  ghost predicate Accepts(n: nat) {
    n == 1 || (n >= 5 && IsPrime(n) && SquareReaches(n))
  }

  /** The odd divider whose square is the largest in 32 bits: 2^32 - 7. */
  const FAR_DIVIDER := 479772853

  /** For every odd number from 5 up to 2^32 - 7, the answer is exact. */
  lemma AcceptsIsPrime(n: nat)
    requires n % 2 == 1 && 5 <= n <= WORD - 7
    ensures Accepts(n) <==> IsPrime(n)
  {
    if n <= 65535 {
      NeighbourReaches(n, n - 2);
    } else if n <= FAR_DIVIDER {
      assert Reaches(n, 65535);
    } else {
      assert FAR_DIVIDER * FAR_DIVIDER % WORD == WORD - 7;
      assert Reaches(n, FAR_DIVIDER);
    }
  }

  lemma NeighbourReaches(n: nat, d: nat)
    requires n % 2 == 1 && 5 <= n <= 65535 && d == n - 2
    ensures Reaches(n, d)
  {
    MulMono(3, d, d);
    MulMono(d, 65535, d);
  }

  /** Above that, the 32-bit square falls short: odd squares are 1 modulo 8, so none reaches the
      number, and nothing is accepted. */
  lemma NothingAcceptedAtTheTop(n: nat)
    requires n > WORD - 7
    ensures !SquareReaches(n) && !Accepts(n)
  {
    forall d: nat ensures !Reaches(n, d) {
      if d % 2 == 1 { OddSquare(d); }
    }
  }

  lemma OddSquare(d: nat)
    requires d % 2 == 1
    ensures (d * d) % WORD % 8 == 1
  {
    var k := d / 2;
    Consecutive(k);
    var m := k * (k + 1) / 2;
    assert d * d == 8 * m + 1 by {
      assert d == 2 * k + 1;
      assert d * d == 4 * (k * (k + 1)) + 1;
    }
    OneModEight(d * d, m);
  }

  lemma OneModEight(square: nat, m: nat)
    requires square == 8 * m + 1
    ensures square % WORD % 8 == 1
  {
  }

  lemma {:induction false} Consecutive(k: nat)
    ensures (k * (k + 1)) % 2 == 0
  {
    if k > 0 {
      Consecutive(k - 1);
      assert k * (k + 1) == (k - 1) * k + 2 * k;
    }
  }

  /** The loop of isprime has passed every divider below `d`. */
  ghost predicate PassedTo(n: nat, d: nat) {
    forall e: nat :: 3 <= e < d && e % 2 == 1 ==> Passed(n, e)
  }

  ghost predicate Passed(n: nat, e: nat) {
    e > 0 && n % e != 0 && !Reaches(n, e)
  }

  /** isprime: trial division by odd numbers, with the divider's square computed in 32 bits. */
  method IsPrimeOdd(number: nat) returns (b: bool)
    requires number % 2 == 1 && number < WORD
    ensures b <==> Accepts(number)
  {
    var divider: nat := 3;
    while (divider * divider) % WORD < number && number % divider != 0
      invariant divider % 2 == 1 && 3 <= divider
      invariant if number == 1 then divider == 3 else divider <= number
      invariant PassedTo(number, divider)
      decreases number - divider
    {
      StepPast(number, divider);
      divider := divider + 2;
    }
    b := number % divider != 0;
    Verdict(number, divider);
  }

  lemma StepPast(n: nat, d: nat)
    requires d % 2 == 1 && n % 2 == 1 && 3 <= d <= n
    requires (d * d) % WORD < n && n % d != 0 && PassedTo(n, d)
    ensures PassedTo(n, d + 2) && d + 2 <= n
  {
    if d == n { MultipleMod(d, 1); }
    assert Passed(n, d);
  }

  lemma Verdict(n: nat, d: nat)
    requires n % 2 == 1 && n < WORD && d % 2 == 1 && 3 <= d && (if n == 1 then d == 3 else d <= n)
    requires PassedTo(n, d) && (n % d == 0 || (d * d) % WORD >= n)
    ensures n % d != 0 <==> Accepts(n)
  {
    if n >= 5 {
      if n % d != 0 {
        if d == n { MultipleMod(d, 1); }
        NoDivisorUpTo(n, d);
        assert Reaches(n, d);
      } else if d == n {
        forall e: nat ensures !Reaches(n, e) {
          if 3 <= e < d && e % 2 == 1 { assert Passed(n, e); }
        }
      } else {
        assert !IsPrime(n);
      }
    }
  }

  /** The search stops late enough: nothing up to the last divider divides, so nothing does. */
  lemma NoDivisorUpTo(n: nat, divider: nat)
    requires n % 2 == 1 && 5 <= n < WORD && divider % 2 == 1 && 3 <= divider
    requires (divider * divider) % WORD >= n && n % divider != 0 && PassedTo(n, divider)
    ensures IsPrime(n)
  {
    MultipleMod(divider, divider);
    SmallSquare(divider * divider, n);
    if !IsPrime(n) {
      var d := SmallDivisor(n);
      assert d < divider ==> Passed(n, d);
      SquareMono(divider, d);
    }
  }

  lemma SquareMono(a: nat, b: nat)
    ensures a <= b ==> a * a <= b * b
  {
    if a <= b {
      MulMono(a, b, a);
      MulMono(a, b, b);
    }
  }

  /** A square that reaches n in 32 bits and does not exceed n in truth is n. */
  lemma SmallSquare(square: nat, n: nat)
    requires n < WORD && square % WORD >= n
    ensures square <= n ==> square == n
  {
  }

  // ---------------------------------------------------------------- htab_create

  ghost predicate NoneAccepted(from: nat, to: nat) {
    forall m :: from <= m < to && m % 2 == 1 ==> !Accepts(m)
  }

  /** Where the search from `nel` ends: at the first accepted number, or at 1 when it runs over the end. */
  ghost predicate SizeFor(nel: nat, size: nat) {
    && Accepts(size) && size % 2 == 1 && size < WORD
    && if size >= nel then NoneAccepted(nel, size) else size == 1 && NoneAccepted(nel, WORD)
  }

  /** `nel |= 1; while (!isprime(nel)) nel += 2;` in 32 bits */
  method HtabSize(nel: nat) returns (size: nat)
    requires nel < WORD
    ensures SizeFor(nel, size)
  {
    size := if nel % 2 == 1 then nel else nel + 1;
    var ok := IsPrimeOdd(size);
    while !ok
      invariant size % 2 == 1 && size < WORD && (ok <==> Accepts(size))
      invariant if size >= nel then NoneAccepted(nel, size) else size == 1 && NoneAccepted(nel, WORD)
      decreases if ok then 0 else WORD - size
    {
      assert NoneAccepted(nel, size + 2);
      size := if size + 2 < WORD then size + 2 else size + 2 - WORD;
      ok := IsPrimeOdd(size);
    }
  }

  /** There is a prime for the search to find. */
  ghost predicate PrimeAhead(nel: nat) {
    nel >= 2 && exists p: nat :: IsPrime(p) && 5 <= p && nel <= p <= WORD - 7
  }

  /** The search ends at a prime iff there is one to find, and then at the smallest from 5 on. Otherwise
      it ends at 1. */
  lemma SearchFindsPrimeIff(nel: nat, size: nat)
    requires SizeFor(nel, size)
    ensures IsPrime(size) <==> PrimeAhead(nel)
    ensures if PrimeAhead(nel) then nel <= size && 5 <= size && forall m :: nel <= m < size && m >= 5 ==> !IsPrime(m)
            else size == 1
  {
    if PrimeAhead(nel) {
      var p: nat :| IsPrime(p) && 5 <= p && nel <= p <= WORD - 7;
      SearchFindsPrime(nel, size, p);
    } else if size != 1 {
      assert nel < 2 ==> !Accepts(1);      // which it does accept, so nel is at least 2
      if size > WORD - 7 { NothingAcceptedAtTheTop(size); }
    }
  }

  lemma SearchFindsPrime(nel: nat, size: nat, p: nat)
    requires SizeFor(nel, size) && 2 <= nel && IsPrime(p) && 5 <= p && nel <= p <= WORD - 7
    ensures nel <= size <= p && size >= 5 && IsPrime(size)
    ensures forall m :: nel <= m < size && m >= 5 ==> !IsPrime(m)
  {
    assert p % 2 == 1;
    AcceptsIsPrime(p);
    forall m | nel <= m < size && m >= 5 ensures !IsPrime(m) {
      if m % 2 == 1 { AcceptsIsPrime(m); }
    }
  }

  /** Asked for one slot, the search ends at once, and not at a prime. */
  lemma OneIsTaken(size: nat)
    requires SizeFor(1, size)
    ensures size == 1 && !IsPrime(size)
  {
    assert Accepts(1);
  }

  /** The size that the Windows backend asks for is a prime. */
  lemma HtabSizeIsPrime()
    ensures IsPrime(1021)
  {
    if !IsPrime(1021) {
      var d := SmallDivisor(1021);
      if d >= 32 { MulMono(32, d, 32); MulMono(32, d, d); }
    }
  }

  // ---------------------------------------------------------------- double hashing

  /** Euclid's lemma: a prime that divides `k * s` but not `s` divides `k`. */
  lemma EuclidLemma(p: nat, s: nat, k: nat, v: nat)
    requires IsPrime(p) && 0 < s < p && k * s == p * v
    ensures k % p == 0
  {
    var m, u := LeastMultiplier(p, s);
    MultiplierDivides(p, s, m, u, p, s);
    MultiplierDivides(p, s, m, u, k, v);
    if m == 1 {
      MulMono(1, u, p);
    } else {
      assert m == p;
    }
  }

  ghost predicate IsMultiplier(p: nat, s: nat, m: nat, u: nat) {
    m > 0 && m * s == p * u
  }

  /** The least positive m for which p divides m * s, with the quotient. */
  lemma LeastMultiplier(p: nat, s: nat) returns (m: nat, u: nat)
    requires 0 < s < p
    ensures 0 < m <= p && IsMultiplier(p, s, m, u)
    ensures forall r: nat, w: nat :: IsMultiplier(p, s, r, w) ==> m <= r
  {
    m, u := p, s;
    assert IsMultiplier(p, s, m, u);
    while exists r: nat, w: nat :: IsMultiplier(p, s, r, w) && r < m
      invariant 0 < m <= p && IsMultiplier(p, s, m, u)
      decreases m
    {
      var r: nat, w: nat :| IsMultiplier(p, s, r, w) && r < m;
      m, u := r, w;
    }
  }

  /** The least multiplier divides every other one: the remainder would be a smaller one. */
  lemma MultiplierDivides(p: nat, s: nat, m: nat, u: nat, k: nat, v: nat)
    requires p > 0 && IsMultiplier(p, s, m, u) && k * s == p * v
    requires forall r: nat, w: nat :: IsMultiplier(p, s, r, w) ==> m <= r
    ensures k % m == 0
  {
    var q, r := k / m, k % m;
    assert k == m * q + r;
    calc {
      r * s;
      (k - m * q) * s;
      k * s - q * (m * s);
      p * v - q * (p * u);
      p * (v - q * u);
    }
    if r > 0 {
      assert v - q * u >= 0 by { if v - q * u < 0 { MulMono(1, q * u - v, p); } }
      assert IsMultiplier(p, s, r, v - q * u);
    }
  }
}
