/**
 For which numbers isprime is right. The hard part is one number, 2^32 - 5: it is prime, and the
 code takes it for composite. If it had a divisor d up to its root, the powers of some b modulo d
 would return to 1 soon; but they have a prime period, and a long one.
 */
module ExactPrimes {
  import opened Bytes
  import opened Primes
  import opened Sets

  // ---------------------------------------------------------------- orbits

  /** x, f(x), f(f(x)), ... */
  function Orbit(f: nat -> nat, x: nat, k: nat): nat {
    if k == 0 then x else f(Orbit(f, x, k - 1))
  }

  lemma {:induction false} OrbitAdd(f: nat -> nat, x: nat, i: nat, j: nat, k: nat)
    requires k == i + j
    ensures Orbit(f, x, k) == Orbit(f, Orbit(f, x, i), j)
    decreases j
  {
    if j > 0 { OrbitAdd(f, x, i, j - 1, k - 1); }
  }

  ghost predicate Period(f: nat -> nat, x: nat, m: nat) {
    m > 0 && Orbit(f, x, m) == x
  }

  ghost predicate LeastPeriod(f: nat -> nat, x: nat, m: nat) {
    Period(f, x, m) && forall r: nat :: Period(f, x, r) ==> m <= r
  }

  lemma FindLeast(f: nat -> nat, x: nat, e: nat) returns (m: nat)
    requires Period(f, x, e)
    ensures m <= e && LeastPeriod(f, x, m)
  {
    m := e;
    while exists r: nat :: Period(f, x, r) && r < m
      invariant m <= e && Period(f, x, m)
      decreases m
    {
      var r: nat :| Period(f, x, r) && r < m;
      m := r;
    }
  }

  /** The least period divides every period. */
  lemma {:induction false} PeriodDivides(f: nat -> nat, x: nat, m: nat, q: nat) returns (k: nat)
    requires LeastPeriod(f, x, m) && Period(f, x, q)
    ensures q == m * k
    decreases q
  {
    if q == m {
      k := 1;
    } else {
      var rest: nat := q - m;
      OrbitAdd(f, x, m, rest, q);
      k := PeriodDivides(f, x, m, rest);
      assert m * (k + 1) == m * k + m;
      k := k + 1;
    }
  }

  /** Two equal points within one period leave a shorter one. */
  lemma EqualPoints(f: nat -> nat, x: nat, q: nat, i: nat, j: nat, d: nat)
    requires Orbit(f, x, q) == x && i < j <= q && d == j - i && Orbit(f, x, i) == Orbit(f, x, j)
    ensures Orbit(f, x, d) == x
  {
    Returns(f, x, q, i, j, d, q - i, q + d);
  }

  lemma Returns(f: nat -> nat, x: nat, q: nat, i: nat, j: nat, d: nat, back: nat, far: nat)
    requires Orbit(f, x, q) == x && Orbit(f, x, i) == Orbit(f, x, j)
    requires q == i + back && far == j + back && far == q + d
    ensures Orbit(f, x, d) == x
  {
    OrbitAdd(f, x, i, back, q);
    OrbitAdd(f, x, j, back, far);
    OrbitAdd(f, x, q, d, far);
  }

  /** With a prime period q, an orbit has one point or q of them; among fewer than q numbers there
      is no room for q. */
  lemma LongOrbit(f: nat -> nat, x: nat, q: nat, d: nat)
    requires IsPrime(q) && Period(f, x, q) && 0 < d < q
    requires forall e: nat :: Orbit(f, x, e) < d
    ensures f(x) == x
  {
    var e := ShortPeriod(f, x, q, d);
    var m := FindLeast(f, x, e);
    var k := PeriodDivides(f, x, m, q);
    DividesPrime(q, m, k);
    assert Orbit(f, x, 1) == f(Orbit(f, x, 0));
  }

  lemma ShortPeriod(f: nat -> nat, x: nat, q: nat, d: nat) returns (e: nat)
    requires Period(f, x, q) && 0 < d < q
    requires forall e: nat :: Orbit(f, x, e) < d
    ensures e <= d && Period(f, x, e)
  {
    var points := seq(d + 1, (i: nat) => Orbit(f, x, i));
    var i, j := Pigeonhole(points, d);
    e := j - i;
    EqualPoints(f, x, q, i, j, e);
  }

  lemma DividesPrime(q: nat, m: nat, k: nat)
    requires IsPrime(q) && q == m * k && 0 < m < q
    ensures m == 1
  {
    MultipleMod(m, k);
    assert q % m == 0;
  }

  ghost function Below(d: nat): (s: set<nat>)
    ensures |s| == d && forall x: nat :: x in s <==> x < d
  {
    if d == 0 then {} else Below(d - 1) + {d - 1}
  }

  lemma Pigeonhole(s: seq<nat>, d: nat) returns (i: nat, j: nat)
    requires |s| > d && forall k :: 0 <= k < |s| ==> s[k] < d
    ensures i < j < |s| && s[i] == s[j]
  {
    if Distinct(s) {
      CountElements(s);
      SubsetSize(Elements(s), Below(d));
    }
    i, j :| 0 <= i < j < |s| && s[i] == s[j];
  }

  // ---------------------------------------------------------------- powers modulo n

  /** Multiplication by b modulo n; its orbit from 1 are the powers of b. */
  function Times(b: nat, n: nat): nat -> nat
    requires n > 1
  {
    (x: nat) => x * b % n
  }

  lemma ModMul(a: nat, b: nat, n: nat)
    requires n > 0
    ensures (a % n) * b % n == a * b % n
  {
    var q, r := a / n, a % n;
    assert a * b == r * b + n * (q * b);
    AddMultiple(r * b, q * b, n);
  }

  lemma AddMultiple(a: nat, k: nat, n: nat)
    requires n > 0
    ensures (a + n * k) % n == a % n
  {
    var s := a + n * k;
    assert s == n * (a / n + k) + a % n;
    RemainderIs(s, n, a / n + k, a % n);
  }

  lemma RemainderIs(a: nat, n: nat, q: nat, r: nat)
    requires n > 0 && a == n * q + r && r < n
    ensures a % n == r
  {
    var x := a / n;
    assert a == n * x + a % n;
    NextMultiple(n, q, x);
    NextMultiple(n, x, q);
  }

  /** The powers from x on are x times the powers from 1 on. */
  lemma {:induction false} OrbitFrom(b: nat, n: nat, x: nat, k: nat)
    requires n > 1 && x < n
    ensures Orbit(Times(b, n), x, k) == x * Orbit(Times(b, n), 1, k) % n
  {
    if k > 0 {
      OrbitFrom(b, n, x, k - 1);
      var y := Orbit(Times(b, n), 1, k - 1);
      ThreeFactors(x, y, b, n);
    }
  }

  lemma ThreeFactors(x: nat, y: nat, b: nat, n: nat)
    requires n > 0
    ensures (x * y % n) * b % n == x * (y * b % n) % n
  {
    ModMul(x * y, b, n);
    ModMul(y * b, x, n);
    assert (x * y) * b == (y * b) * x;
  }

  lemma Squared(b: nat, n: nat, h: nat, e: nat)
    requires n > 1 && e == h + h && Orbit(Times(b, n), 1, h) < n
    ensures Orbit(Times(b, n), 1, e) == Orbit(Times(b, n), 1, h) * Orbit(Times(b, n), 1, h) % n
  {
    OrbitAdd(Times(b, n), 1, h, h, e);
    OrbitFrom(b, n, Orbit(Times(b, n), 1, h), h);
  }

  /** Powers modulo a divisor of n follow those modulo n. */
  lemma {:induction false} OrbitModDivisor(b: nat, n: nat, d: nat, k: nat, e: nat)
    requires d > 1 && n > 1 && n == d * k
    ensures Orbit(Times(b, n), 1, e) % d == Orbit(Times(b, d), 1, e) < d
  {
    if e > 0 {
      OrbitModDivisor(b, n, d, k, e - 1);
      var x := Orbit(Times(b, n), 1, e - 1);
      ModOfMod(x * b, n, d, k);
      ModMul(x, b, d);
    }
  }

  lemma ModOfMod(x: nat, n: nat, d: nat, k: nat)
    requires d > 0 && n > 0 && n == d * k
    ensures x % n % d == x % d
  {
    Regrouped(x / n, x % n, x, n, d, k);
    AddMultiple(x % n, k * (x / n), d);
  }

  lemma Regrouped(q: nat, r: nat, x: nat, n: nat, d: nat, k: nat)
    requires x == n * q + r && n == d * k
    ensures x == r + d * (k * q)
  {
    assert (d * k) * q == d * (k * q);
  }

  // ---------------------------------------------------------------- 2^32 - 5

  const TOP := 4294967291     // 2^32 - 5, and TOP - 1 == 190 * LONG
  const LONG := 22605091      // a prime, and LONG - 1 == 690 * 181 * 181

  /** From b^h == half to b^e == r, modulo n: the exponent is doubled, or it grows by one. */
  predicate Doubles(n: nat, h: nat, half: nat, e: nat, r: nat) {
    e == 2 * h && n > 1 && r == half * half % n
  }

  predicate Grows(b: nat, n: nat, h: nat, half: nat, e: nat, r: nat) {
    e == h + 1 && n > 1 && r == half * b % n
  }

  /** `p` holds of every exponent and power that such a step leads to. */
  ghost predicate Climbs(p: (nat, nat) -> bool, b: nat, n: nat) {
    && p(0, 1)
    && (forall h: nat, half: nat, e: nat, r: nat {:trigger Doubles(n, h, half, e, r)} ::
          p(h, half) && Doubles(n, h, half, e, r) ==> p(e, r))
    && (forall h: nat, half: nat, e: nat, r: nat {:trigger Grows(b, n, h, half, e, r)} ::
          p(h, half) && Grows(b, n, h, half, e, r) ==> p(e, r))
  }

  lemma PowerOfB(p: (nat, nat) -> bool)
    requires Climbs(p, 1073745729, 4294967291) && p(0, 1)
    ensures p(22605091, 1)
  {
    assert Grows(1073745729, 4294967291, 0, 1, 1, 1073745729);
    assert Doubles(4294967291, 1, 1073745729, 2, 3504919713);
    assert Doubles(4294967291, 2, 3504919713, 4, 148041656);
    assert Grows(1073745729, 4294967291, 4, 148041656, 5, 2762101756);
    assert Doubles(4294967291, 5, 2762101756, 10, 1474251975);
    assert Doubles(4294967291, 10, 1474251975, 20, 2995285887);
    assert Grows(1073745729, 4294967291, 20, 2995285887, 21, 4065820878);
    assert Doubles(4294967291, 21, 4065820878, 42, 3219286270);
    assert Grows(1073745729, 4294967291, 42, 3219286270, 43, 1820247785);
    assert Doubles(4294967291, 43, 1820247785, 86, 3855700258);
    assert Doubles(4294967291, 86, 3855700258, 172, 1858816020);
    assert Doubles(4294967291, 172, 1858816020, 344, 2210652769);
    assert Doubles(4294967291, 344, 2210652769, 688, 1091548832);
    assert Grows(1073745729, 4294967291, 688, 1091548832, 689, 3255072328);
    assert Doubles(4294967291, 689, 3255072328, 1378, 3894166791);
    assert Grows(1073745729, 4294967291, 1378, 3894166791, 1379, 2036108090);
    assert Doubles(4294967291, 1379, 2036108090, 2758, 1360206462);
    assert Grows(1073745729, 4294967291, 2758, 1360206462, 2759, 2579436866);
    assert Doubles(4294967291, 2759, 2579436866, 5518, 1810740027);
    assert Doubles(4294967291, 5518, 1810740027, 11036, 2386321990);
    assert Grows(1073745729, 4294967291, 11036, 2386321990, 11037, 3638735613);
    assert Doubles(4294967291, 11037, 3638735613, 22074, 177569812);
    assert Grows(1073745729, 4294967291, 22074, 177569812, 22075, 2142344274);
    assert Doubles(4294967291, 22075, 2142344274, 44150, 164317185);
    assert Doubles(4294967291, 44150, 164317185, 88300, 1505111656);
    assert Grows(1073745729, 4294967291, 88300, 1505111656, 88301, 3827152162);
    assert Doubles(4294967291, 88301, 3827152162, 176602, 305512203);
    assert Doubles(4294967291, 176602, 305512203, 353204, 999910711);
    assert Doubles(4294967291, 353204, 999910711, 706408, 1505118024);
    assert Grows(1073745729, 4294967291, 706408, 1505118024, 706409, 3852027162);
    assert Doubles(4294967291, 706409, 3852027162, 1412818, 894754220);
    assert Doubles(4294967291, 1412818, 894754220, 2825636, 2824842023);
    assert Doubles(4294967291, 2825636, 2824842023, 5651272, 3541280234);
    assert Doubles(4294967291, 5651272, 3541280234, 11302544, 779252477);
    assert Grows(1073745729, 4294967291, 11302544, 779252477, 11302545, 4191888076);
    assert Doubles(4294967291, 11302545, 4191888076, 22605090, 688844034);
    assert Grows(1073745729, 4294967291, 22605090, 688844034, 22605091, 1);
  }

  lemma PowerOfC(p: (nat, nat) -> bool)
    requires Climbs(p, 18389778, 22605091) && p(0, 1)
    ensures p(32761, 1)
  {
    assert Grows(18389778, 22605091, 0, 1, 1, 18389778);
    assert Doubles(22605091, 1, 18389778, 2, 18881964);
    assert Grows(18389778, 22605091, 2, 18881964, 3, 18694817);
    assert Doubles(22605091, 3, 18694817, 6, 967039);
    assert Grows(18389778, 22605091, 6, 967039, 7, 3991823);
    assert Doubles(22605091, 7, 3991823, 14, 5746155);
    assert Grows(18389778, 22605091, 14, 5746155, 15, 10446987);
    assert Doubles(22605091, 15, 10446987, 30, 10546524);
    assert Grows(18389778, 22605091, 30, 10546524, 31, 12830595);
    assert Doubles(22605091, 31, 12830595, 62, 15866151);
    assert Grows(18389778, 22605091, 62, 15866151, 63, 8572888);
    assert Doubles(22605091, 63, 8572888, 126, 13438432);
    assert Grows(18389778, 22605091, 126, 13438432, 127, 8077143);
    assert Doubles(22605091, 127, 8077143, 254, 2378623);
    assert Grows(18389778, 22605091, 254, 2378623, 255, 5894688);
    assert Doubles(22605091, 255, 5894688, 510, 21407058);
    assert Grows(18389778, 22605091, 510, 21407058, 511, 16329565);
    assert Doubles(22605091, 511, 16329565, 1022, 21323023);
    assert Grows(18389778, 22605091, 1022, 21323023, 1023, 5776459);
    assert Doubles(22605091, 1023, 5776459, 2046, 13333217);
    assert Grows(18389778, 22605091, 2046, 13333217, 2047, 10349018);
    assert Doubles(22605091, 2047, 10349018, 4094, 20979418);
    assert Grows(18389778, 22605091, 4094, 20979418, 4095, 9799090);
    assert Doubles(22605091, 4095, 9799090, 8190, 10622299);
    assert Doubles(22605091, 8190, 10622299, 16380, 14739265);
    assert Doubles(22605091, 16380, 14739265, 32760, 22155999);
    assert Grows(18389778, 22605091, 32760, 22155999, 32761, 1);
  }

  lemma SmallPowerOfC(p: (nat, nat) -> bool)
    requires Climbs(p, 18389778, 22605091) && p(0, 1)
    ensures p(181, 13954217)
  {
    assert Grows(18389778, 22605091, 0, 1, 1, 18389778);
    assert Doubles(22605091, 1, 18389778, 2, 18881964);
    assert Doubles(22605091, 2, 18881964, 4, 6806019);
    assert Grows(18389778, 22605091, 4, 6806019, 5, 22134795);
    assert Doubles(22605091, 5, 22134795, 10, 10117272);
    assert Grows(18389778, 22605091, 10, 10117272, 11, 19857376);
    assert Doubles(22605091, 11, 19857376, 22, 18167953);
    assert Doubles(22605091, 22, 18167953, 44, 18363502);
    assert Grows(18389778, 22605091, 44, 18363502, 45, 15500452);
    assert Doubles(22605091, 45, 15500452, 90, 15607508);
    assert Doubles(22605091, 90, 15607508, 180, 14341693);
    assert Grows(18389778, 22605091, 180, 14341693, 181, 13954217);
  }

  /** The orbit of 1 under multiplication by b modulo n goes through `r` at `e`. */
  ghost function Through(b: nat, n: nat): (nat, nat) -> bool
    requires n > 1
  {
    (e: nat, r: nat) => Orbit(Times(b, n), 1, e) == r < n
  }

  lemma OrbitClimbs(b: nat, n: nat)
    requires n > 1
    ensures Climbs(Through(b, n), b, n)
  {
    var p := Through(b, n);
    forall h: nat, half: nat, e: nat, r: nat | p(h, half) && Doubles(n, h, half, e, r) ensures p(e, r) {
      Squared(b, n, h, e);
    }
  }

  /** What divides b - 1 and n divides 1, when some multiple of b - 1 is 1 more than one of n. */
  lemma NoCommonDivisor(x: nat, n: nat, u: nat, v: nat, d: nat, k: nat)
    requires x > 0 && u * (x - 1) == v * n + 1 && n == d * k && d > 1
    ensures x % d != 1
  {
    var j := x / d;
    assert u * (d * j) == d * (u * j) && v * (d * k) == d * (v * k);
    NotOneMore(d, u * j, v * k);
    assert x == d * j + x % d;
  }

  lemma NotOneMore(d: nat, x: nat, y: nat)
    requires d > 1
    ensures d * x != d * y + 1
  {
    NextMultiple(d, y, x);
    NextMultiple(d, x, y);
  }

  /** The orbit of 1 modulo a divisor d stays below d. */
  lemma OrbitBelow(b: nat, n: nat, d: nat, k: nat)
    requires n > 1 && n == d * k && d > 1
    ensures forall e: nat :: Orbit(Times(b, d), 1, e) < d
  {
    forall e: nat ensures Orbit(Times(b, d), 1, e) < d { OrbitModDivisor(b, n, d, k, e); }
  }

  /** It returns where the orbit modulo n does. */
  lemma OrbitReturns(b: nat, n: nat, d: nat, k: nat, q: nat)
    requires n > 1 && n == d * k && d > 1 && q > 0 && Orbit(Times(b, n), 1, q) == 1
    ensures Period(Times(b, d), 1, q)
  {
    OrbitModDivisor(b, n, d, k, q);
    RemainderIs(1, d, 0, 1);
  }

  /** A small divisor of n divides b - 1 when b^q is 1 for a prime q. */
  lemma PrimePeriod(b: nat, n: nat, d: nat, k: nat, q: nat)
    requires n > 1 && n == d * k && 1 < d < q && IsPrime(q) && Orbit(Times(b, n), 1, q) == 1
    ensures b % d == 1
  {
    OrbitBelow(b, n, d, k);
    OrbitReturns(b, n, d, k, q);
    LongOrbit(Times(b, d), 1, q, d);
  }

  /** It divides b^p - 1 when b^(p * p) is 1 for a prime p. */
  lemma SquarePeriod(b: nat, n: nat, d: nat, k: nat, p: nat, q: nat)
    requires n > 1 && n == d * k && 1 < d < q && IsPrime(p) && q == p * p && Orbit(Times(b, n), 1, q) == 1
    ensures Orbit(Times(b, n), 1, p) % d == 1
  {
    OrbitBelow(b, n, d, k);
    OrbitReturns(b, n, d, k, q);
    var f := Times(b, d);
    var e := ShortPeriod(f, 1, q, d);
    var m := FindLeast(f, 1, e);
    var t := PeriodDivides(f, 1, m, q);
    var u := DividesSquare(p, m, t);
    PeriodMultiple(f, 1, m, u, p);
    OrbitModDivisor(b, n, d, k, p);
  }

  lemma {:induction false} PeriodMultiple(f: nat -> nat, x: nat, m: nat, u: nat, p: nat)
    requires Orbit(f, x, m) == x && p == m * u
    ensures Orbit(f, x, p) == x
    decreases u
  {
    if u > 0 {
      var rest: nat := m * (u - 1);
      assert p == m + rest;
      PeriodMultiple(f, x, m, u - 1, rest);
      OrbitAdd(f, x, m, rest, p);
    }
  }

  /** A proper divisor of the square of a prime divides the prime. */
  lemma DividesSquare(p: nat, m: nat, t: nat) returns (u: nat)
    requires IsPrime(p) && p * p == m * t && 0 < m < p * p
    ensures p == m * u
  {
    var a, r := m / p, m % p;
    assert m == p * a + r;
    if r == 0 {
      PrimeItself(p, a, t);
      u := 1;
    } else {
      u := PrimeInCofactor(p, m, t, a, r);
    }
  }

  lemma PrimeItself(p: nat, a: nat, t: nat)
    requires IsPrime(p) && p * p == (p * a) * t && p * a < p * p
    ensures a == 1
  {
    assert (p * a) * t == p * (a * t);
    SameFactor(p, p, a * t);
    SmallFactor(p, a, t);
  }

  lemma PrimeInCofactor(p: nat, m: nat, t: nat, a: nat, r: nat) returns (u: nat)
    requires IsPrime(p) && p * p == m * t && m == p * a + r && 0 < r < p
    ensures p == m * u
  {
    TimesRest(p, m, t, a, r);
    var v: nat := NonNegative(p, t * r, p - t * a);
    EuclidLemma(p, r, t, v);
    u := t / p;
    CancelFactor(p, m, t, u);
  }

  lemma CancelFactor(p: nat, m: nat, t: nat, u: nat)
    requires p > 0 && p * p == m * t && t == p * u
    ensures p == m * u
  {
    assert m * (p * u) == p * (m * u);
    SameFactor(p, p, m * u);
  }

  lemma TimesRest(p: nat, m: nat, t: nat, a: nat, r: nat)
    requires m == p * a + r && p * p == m * t
    ensures t * r == p * (p - t * a)
  {
    assert m * t == p * (t * a) + t * r;
  }

  lemma NonNegative(p: nat, x: nat, y: int) returns (v: nat)
    requires p > 0 && x == p * y
    ensures v == y
  {
    SignOfProduct(p, y);
    v := y;
  }

  lemma SignOfProduct(p: nat, y: int)
    ensures p > 0 && y < 0 ==> p * y < 0
  {
  }

  lemma SameFactor(p: nat, x: nat, y: nat)
    requires p > 0 && p * x == p * y
    ensures x == y
  {
    NextMultiple(p, x, y);
    NextMultiple(p, y, x);
  }

  /** Of two factors of a prime, the first is 1 or the prime itself; the latter is excluded here. */
  lemma SmallFactor(p: nat, a: nat, t: nat)
    requires IsPrime(p) && p == a * t && p * a < p * p
    ensures a == 1
  {
    if a >= p { MulMono(p, a, p); }
    assert a > 0;
    DividesPrime(p, a, t);
  }

  lemma RootBound(d: nat, root: nat, n: nat)
    requires d * d <= n < root * root
    ensures d < root
  {
    SquareMono(root, d);
  }

  lemma OrbitOfC()
    ensures Orbit(Times(18389778, 22605091), 1, 32761) == 1
    ensures Orbit(Times(18389778, 22605091), 1, 181) == 13954217
  {
    OrbitClimbs(18389778, 22605091);
    PowerOfC(Through(18389778, 22605091));
    SmallPowerOfC(Through(18389778, 22605091));
  }

  /** A small divisor of LONG divides c^181 - 1. */
  lemma DividesPowerOfC(d: nat, k: nat)
    requires 22605091 == d * k && 1 < d < 4755
    ensures 13954217 % d == 1
  {
    OrbitOfC();
    SmallPrime(181);
    SquarePeriod(18389778, 22605091, d, k, 181, 32761);
  }

  lemma LongHasNoDivisor(d: nat)
    requires d > 0
    ensures 1 < d < 4755 ==> LONG % d != 0
  {
    var k := LONG / d;
    if 1 < d < 4755 && LONG == d * k {
      DividesPowerOfC(d, k);
      NoCommonDivisor(13954217, 22605091, 19569746, 12080485, d, k);
    }
  }

  lemma SmallPrime(n: nat)
    requires n % 2 == 1 && 3 <= n < 14 * 14
    requires n % 3 != 0 && n % 5 != 0 && n % 7 != 0 && n % 9 != 0 && n % 11 != 0 && n % 13 != 0
    ensures IsPrime(n)
  {
    if !IsPrime(n) {
      var d := SmallDivisor(n);
      RootBound(d, 14, n);
      OddBelow14(d);
    }
  }

  lemma OddBelow14(d: nat)
    requires 3 <= d < 14 && d % 2 == 1
    ensures d in {3, 5, 7, 9, 11, 13}
  {
  }

  lemma LongIsPrime()
    ensures IsPrime(LONG)
  {
    if !IsPrime(LONG) {
      var d := SmallDivisor(LONG);
      RootBound(d, 4755, LONG);
      LongHasNoDivisor(d);
    }
  }

  lemma TopHasNoDivisor(d: nat)
    requires d > 0
    ensures 1 < d < 65536 ==> TOP % d != 0
  {
    var k := TOP / d;
    if 1 < d < 65536 && TOP == d * k {
      OrbitClimbs(1073745729, 4294967291);
      PowerOfB(Through(1073745729, 4294967291));
      LongIsPrime();
      PrimePeriod(1073745729, 4294967291, d, k, 22605091);
      NoCommonDivisor(1073745729, 4294967291, 1771216906, 442805837, d, k);
    }
  }

  /** 2^32 - 5 is a prime. */
  lemma TopIsPrime()
    ensures TOP == WORD - 5 && IsPrime(TOP)
  {
    if !IsPrime(TOP) {
      var d := SmallDivisor(TOP);
      RootBound(d, 65536, TOP);
      TopHasNoDivisor(d);
    }
  }

  // ---------------------------------------------------------------- the verdict on isprime

  lemma NotPrime(n: nat, d: nat)
    requires 2 <= d < n && n % d == 0
    ensures !IsPrime(n)
  {
  }

  /** Of all odd 32-bit numbers, isprime is wrong for three: it takes 1 for a prime, and neither 3
      nor 2^32 - 5 for one. */
  lemma AnswerIsRightIff(n: nat)
    requires n % 2 == 1 && n < WORD
    ensures (Accepts(n) <==> IsPrime(n)) <==> n != 1 && n != 3 && n != WORD - 5
  {
    TopIsPrime();
    if 5 <= n <= WORD - 7 {
      AcceptsIsPrime(n);
    } else if n > WORD - 7 {
      NothingAcceptedAtTheTop(n);
      NotPrime(WORD - 3, 9241);
      NotPrime(WORD - 1, 3);
    } else {
      assert n == 3 ==> IsPrime(n);
    }
  }
}
