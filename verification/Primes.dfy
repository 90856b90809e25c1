/** Primality of the bucket counts, by Pocklington certificates.
  * The hash table sizes itself from a fixed list; its probing is only correct because every
  * entry is prime, so the entries are proved prime here rather than taken on trust. */
module Primes {

  ghost predicate Prime(n: nat) {
    n >= 2 && forall d {:trigger n % d} :: 1 < d < n ==> n % d != 0
  }

  // ---------- divisibility ----------

  /** A multiple of d strictly between -d and d is zero. */
  lemma SmallMultiple(x: int, d: int)
    requires d > 0 && -d < x * d < d
    ensures x == 0
  {
    assert x >= 1 ==> x * d >= d;
    assert x <= -1 ==> x * d <= -d;
  }

  lemma Remainder(p: nat, q: nat)
    requires p < q
    ensures p % q == p
  {
  }

  lemma MultipleMod(k: int, d: int)
    requires d > 0
    ensures (k * d) % d == 0
  {
    var q, r := (k * d) / d, (k * d) % d;
    assert k * d == q * d + r;
    assert (k - q) * d == r;
    SmallMultiple(k - q, d);
  }

  lemma ModAddMultiple(a: int, k: int, d: int)
    requires d > 0
    ensures (a + k * d) % d == a % d
  {
    var q, r := a / d, a % d;
    var q', r' := (a + k * d) / d, (a + k * d) % d;
    assert (q + k - q') * d == r' - r by {
      assert a + k * d == q' * d + r';
      assert a == q * d + r;
      assert (q + k - q') * d == q * d + k * d - q' * d;
    }
    SmallMultiple(q + k - q', d);
  }

  lemma ModMul(a: int, b: int, d: int)
    requires d > 0
    ensures ((a % d) * b) % d == (a * b) % d
  {
    var q, r := a / d, a % d;
    assert a * b == r * b + (q * b) * d by {
      assert a == q * d + r;
      assert (q * d + r) * b == q * d * b + r * b;
    }
    ModAddMultiple(r * b, q * b, d);
  }

  lemma ModMulShift(a: int, x: int, y: int, d: int)
    requires d > 0
    ensures (a * ((x * y) % d)) % d == (((a * x) % d) * y) % d
  {
    ModMul(x * y, a, d);
    ModMul(a * x, y, d);
    assert x * y * a == a * x * y;
    assert a * ((x * y) % d) == ((x * y) % d) * a;
  }

  lemma DividesAdd(a: int, b: int, k: int, d: int)
    requires d > 0 && a % d == 0 && b % d == 0
    ensures (a - k * b) % d == 0
  {
    var x := -(k * (b / d));
    assert a - k * b == a + x * d by {
      assert b == (b / d) * d;
      assert k * ((b / d) * d) == (k * (b / d)) * d;
    }
    ModAddMultiple(a, x, d);
  }

  /** Euclid's lemma, by descent on the smaller factor: p % a is a smaller one. */
  lemma {:induction false} Euclid(p: nat, a: nat, b: int)
    requires Prime(p) && 0 < a < p && (a * b) % p == 0
    ensures b % p == 0
    decreases a
  {
    if a > 1 {
      var q, r := p / a, p % a;
      assert r * b == b * p - q * (a * b) by {
        assert p == q * a + r;
        assert (q * a + r) * b == q * (a * b) + r * b;
      }
      MultipleMod(b, p);
      DividesAdd(b * p, a * b, q, p);
      Euclid(p, r, b);
    }
  }

  lemma EuclidAny(p: nat, a: nat, b: int)
    requires Prime(p) && (a * b) % p == 0
    ensures a % p == 0 || b % p == 0
  {
    if a % p != 0 {
      ModMul(a, b, p);
      Euclid(p, a % p, b);
    }
  }

  lemma {:induction false} HasPrimeFactor(n: nat, d: nat) returns (q: nat)
    requires 2 <= d <= n && forall e {:trigger n % e} :: 1 < e < d ==> n % e != 0
    ensures Prime(q) && n % q == 0
    decreases n - d
  {
    if n % d == 0 {
      forall e {:trigger d % e} | 1 < e < d ensures d % e != 0 {
        if d % e == 0 {
          assert n == ((n / d) * (d / e)) * e by {
            assert n == (n / d) * d && d == (d / e) * e;
            assert (n / d) * ((d / e) * e) == ((n / d) * (d / e)) * e;
          }
          MultipleMod((n / d) * (d / e), e);
        }
      }
      q := d;
    } else {
      q := HasPrimeFactor(n, d + 1);
    }
  }

  // ---------- powers modulo n ----------

  function Power(a: nat, e: nat, n: nat): (r: nat)
    requires n >= 2
    ensures r < n
  {
    if e == 0 then 1 else (a * Power(a, e - 1, n)) % n
  }

  lemma PowerStep(a: nat, e: nat, n: nat)
    requires n >= 2 && e > 0
    ensures Power(a, e, n) == (a * Power(a, e - 1, n)) % n
  {
  }

  lemma PowerZero(a: nat, n: nat)
    requires n >= 2
    ensures Power(a, 0, n) == 1
  {
  }

  lemma {:induction false} PowerAdd(a: nat, x: nat, y: nat, n: nat)
    requires n >= 2
    ensures Power(a, x + y, n) == (Power(a, x, n) * Power(a, y, n)) % n
    decreases x
  {
    hide Power;
    if x == 0 {
      PowerZero(a, n);
      Remainder(Power(a, y, n), n);
    } else {
      PowerAdd(a, x - 1, y, n);
      PowerStep(a, x, n);
      PowerStep(a, x + y, n);
      ModMulShift(a, Power(a, x - 1, n), Power(a, y, n), n);
    }
  }

  lemma {:induction false} PowerMul(a: nat, x: nat, y: nat, n: nat)
    requires n >= 2
    ensures Power(a, x * y, n) == Power(Power(a, x, n), y, n)
    decreases y
  {
    if y > 0 {
      PowerMul(a, x, y - 1, n);
      assert x * y == x + x * (y - 1);
      PowerAdd(a, x, x * (y - 1), n);
    }
  }

  lemma {:induction false} PowerOfOne(e: nat, n: nat)
    requires n >= 2
    ensures Power(1, e, n) == 1
  {
    hide Power;
    PowerZero(1, n);
    if e > 0 {
      PowerOfOne(e - 1, n);
      PowerStep(1, e, n);
      Remainder(1, n);
    }
  }

  lemma PowerDouble(a: nat, e: nat, n: nat, x: nat)
    requires n >= 2 && x % n == Power(a, e, n)
    ensures (x * x) % n == Power(a, 2 * e, n)
  {
    hide Power;
    PowerAdd(a, e, e, n);
    ModMul(x, x, n);
    ModMul(x, x % n, n);
    assert (x % n) * x == x * (x % n);
  }

  lemma ModMulBoth(x: nat, y: nat, n: nat)
    requires n >= 2
    ensures (x * y) % n == ((x % n) * (y % n)) % n
  {
    ModMul(x, y, n);
    ModMul(y, x % n, n);
    assert y * (x % n) == (x % n) * y;
    assert (y % n) * (x % n) == (x % n) * (y % n);
  }

  lemma FourthPower(a: nat, n: nat, e: nat, x: nat)
    requires n >= 2 && x % n == Power(a, e, n)
    ensures (x * x * x * x) % n == Power(a, 4 * e, n)
  {
    hide Power;
    PowerDouble(a, e, n, x);
    PowerDouble(a, 2 * e, n, x * x);
    assert (x * x) * (x * x) == x * x * x * x;
  }

  lemma NextPower(a: nat, n: nat, d: nat, p: nat)
    requires n >= 2 && p % n == Power(a, d, n)
    ensures (p * a) % n == Power(a, d + 1, n)
  {
    PowerStep(a, d + 1, n);
    ModMul(p, a, n);
    assert (p % n) * a == a * (p % n);
  }

  /** p is a^d, for a base-4 digit d. */
  predicate DigitPower(a: nat, d: nat, p: nat) {
    if d == 0 then p == 1 else if d == 1 then p == a else if d == 2 then p == a * a else d == 3 && p == a * a * a
  }

  lemma DigitPowers(a: nat, a2: nat, a3: nat)
    requires a2 == a * a && a3 == a * a * a
    ensures DigitPower(a, 0, 1) && DigitPower(a, 1, a) && DigitPower(a, 2, a2) && DigitPower(a, 3, a3)
  {
  }

  lemma DigitPowerIsPower(a: nat, d: nat, p: nat, n: nat)
    requires n >= 2 && DigitPower(a, d, p)
    ensures p % n == Power(a, d, n)
  {
    hide Power;
    PowerZero(a, n);
    Remainder(1, n);
    assert 1 * a == a;
    NextPower(a, n, 0, 1);
    NextPower(a, n, 1, a);
    NextPower(a, n, 2, a * a);
  }

  /** One step of a power computation: a^e = r gives a^(4e+d) = s, where p = a^d. */
  lemma Step(a: nat, n: nat, e: nat, r: nat, d: nat, p: nat, s: nat)
    requires n >= 2 && r == Power(a, e, n)
    requires DigitPower(a, d, p)
    requires (r * r * r * r * p) % n == s
    ensures Power(a, 4 * e + d, n) == s
  {
    hide Power;
    Remainder(r, n);
    FourthPower(a, n, e, r);
    DigitPowerIsPower(a, d, p, n);
    PowerAdd(a, 4 * e, d, n);
    ModMulBoth(r * r * r * r, p, n);
  }

  /** u inverts r - 1 modulo n. */
  predicate Inverse(r: nat, u: nat, n: nat) {
    n > 0 && ((r - 1) * u) % n == 1
  }

  /** q divides n - 1, and a^((n-1)/q) - 1 is invertible modulo n. */
  ghost predicate Witness(n: nat, a: nat, q: nat) {
    n >= 2 && exists e: nat, u: nat :: e * q == n - 1 && Inverse(Power(a, e, n), u, n)
  }

  /** Every prime factor of m has a witness. */
  ghost predicate Covered(n: nat, a: nat, m: nat) {
    m > 0 && forall q: nat :: q > 0 && Prime(q) && m % q == 0 ==> Witness(n, a, q)
  }

  lemma CoveredPrime(n: nat, a: nat, q: nat, e: nat, r: nat, u: nat)
    requires Prime(q) && n >= 2 && e * q == n - 1 && Power(a, e, n) == r && ((r - 1) * u) % n == 1
    ensures Covered(n, a, q)
  {
    hide Power;
    assert Inverse(Power(a, e, n), u, n);
    forall p: nat | p > 0 && Prime(p) && q % p == 0 ensures Witness(n, a, p) {
      if q < p { Remainder(q, p); }
      assert p == q;
    }
  }

  lemma CoveredProduct(n: nat, a: nat, x: nat, y: nat, m: nat)
    requires Covered(n, a, x) && Covered(n, a, y) && m == x * y
    ensures Covered(n, a, m)
  {
    hide Prime, Witness;
    forall q: nat | q > 0 && Prime(q) && m % q == 0 ensures Witness(n, a, q) {
      EuclidAny(q, x, y);
    }
  }

  /** a^((n-1)/2) = -1 gives a^(n-1) = 1. */
  lemma Square(a: nat, n: nat, e: nat, x: nat)
    requires n >= 2 && Power(a, e, n) == n - 1 && x == 2 * e
    ensures Power(a, x, n) == 1
  {
    hide Power;
    PowerAdd(a, e, e, n);
    assert (n - 1) * (n - 1) == 1 + (n - 2) * n;
    ModAddMultiple(1, n - 2, n);
    Remainder(1, n);
  }

  lemma PowerCancel(a: nat, x: nat, y: nat, n: nat)
    requires n >= 2 && Power(a, x, n) == 1
    ensures Power(a, x + y, n) == Power(a, y, n)
  {
    PowerAdd(a, x, y, n);
    Remainder(Power(a, y, n), n);
  }

  lemma PowerOfMultiple(a: nat, n: nat, d: nat, c: nat)
    requires n >= 2 && Power(a, d, n) == 1
    ensures Power(a, d * c, n) == 1
  {
    PowerMul(a, d, c, n);
    PowerOfOne(c, n);
  }

  lemma Division(e: nat, d: nat) returns (q: nat, r: nat)
    requires d > 0
    ensures e == d * q + r && r < d && (r == 0 ==> e % d == 0)
  {
    q, r := e / d, e % d;
  }

  lemma PowerRemainder(a: nat, n: nat, d: nat, q: nat, r: nat, e: nat)
    requires n >= 2 && Power(a, d, n) == 1 && e == d * q + r
    ensures Power(a, e, n) == Power(a, r, n)
  {
    hide Power;
    var m := d * q;
    PowerOfMultiple(a, n, d, q);
    PowerCancel(a, m, r, n);
  }

  /** The least exponent that gives 1 divides every exponent that gives 1. */
  lemma OrderDivides(a: nat, n: nat, d: nat, e: nat)
    requires n >= 2 && d > 0 && Power(a, d, n) == 1 && Power(a, e, n) == 1
    requires forall k :: 0 < k < d ==> Power(a, k, n) != 1
    ensures e % d == 0
  {
    var q, r := Division(e, d);
    PowerRemainder(a, n, d, q, r, e);
  }

  lemma {:induction false} LeastExponent(a: nat, n: nat, e: nat) returns (d: nat)
    requires n >= 2 && e > 0 && Power(a, e, n) == 1
    ensures 0 < d <= e && Power(a, d, n) == 1
    ensures forall k :: 0 < k < d ==> Power(a, k, n) != 1
  {
    d := 1;
    while Power(a, d, n) != 1
      invariant 0 < d <= e
      invariant forall k :: 0 < k < d ==> Power(a, k, n) != 1
      decreases e - d
    {
      d := d + 1;
    }
  }

  lemma QuotientTimes(x: nat, y: nat)
    requires y > 0 && x % y == 0
    ensures x == (x / y) * y
  {
  }

  lemma Commutes(x: int, y: int)
    ensures x * y == y * x
  {
  }

  /** Modulo a divisor of n, powers are those modulo n reduced once more. */
  lemma {:induction false} PowerModDivisor(a: nat, e: nat, n: nat, p: nat)
    requires n >= 2 && p >= 2 && n % p == 0
    ensures Power(a, e, p) == Power(a, e, n) % p
  {
    hide Power;
    PowerZero(a, n);
    PowerZero(a, p);
    Remainder(1, p);
    if e > 0 {
      PowerStep(a, e, n);
      PowerStep(a, e, p);
      PowerModDivisor(a, e - 1, n, p);
      var x := Power(a, e - 1, n);
      ModMul(x, a, p);
      ModOfMod(a * x, n, p);
      Commutes(x, a);
      Commutes(x % p, a);
    }
  }

  lemma ModOfMod(x: nat, n: nat, p: nat)
    requires n > 0 && p > 0 && n % p == 0
    ensures (x % n) % p == x % p
  {
    ReduceTwice(x, x / n, x % n, n, n / p, p);
  }

  lemma ReduceTwice(x: nat, q: nat, r: nat, n: nat, k: nat, p: nat)
    requires p > 0 && x == q * n + r && n == k * p
    ensures r % p == x % p
  {
    assert q * (k * p) == (q * k) * p;
    ModAddMultiple(r, q * k, p);
  }

  lemma WitnessModFactor(n: nat, a: nat, q: nat, p: nat) returns (e: nat)
    requires Witness(n, a, q) && Prime(p) && n % p == 0
    ensures e * q == n - 1 && Power(a, e, p) != 1
  {
    hide Power;
    var u: nat;
    e, u :| n >= 2 && e * q == n - 1 && Inverse(Power(a, e, n), u, n);
    PowerModDivisor(a, e, n, p);
    var r := Power(a, e, n);
    if r % p == 1 { NotInvertible(n, p, r, u); }
  }

  lemma NotInvertible(n: nat, p: nat, r: nat, u: nat)
    requires 1 < p && n > 0 && n % p == 0 && r % p == 1
    ensures !Inverse(r, u, n)
  {
    if Inverse(r, u, n) {
      var x := r - 1;
      var q := (x * u) / n;
      assert x * u - q * n == 1;
      var k := r / p;
      assert x == k * p;
      assert x * u == (k * u) * p;
      MultipleMod(k * u, p);
      DividesAdd(x * u, n, q, p);
      Remainder(1, p);
    }
  }

  /** Modulo a prime factor p of n, a^r has order exactly f, where n - 1 = f * r and f is covered. */
  lemma OrderIsFull(n: nat, a: nat, f: nat, r: nat, p: nat, d: nat)
    requires n >= 3 && f * r == n - 1 && Power(a, n - 1, n) == 1 && Covered(n, a, f)
    requires Prime(p) && n % p == 0 && 0 < d < f
    ensures Power(Power(a, r, p), d, p) != 1
  {
    hide Power, Covered, Witness;
    var x := Power(a, r, p);
    if Power(x, d, p) == 1 {
      var l := LeastExponentOf(n, a, f, r, p, d);
      var q, c, k := PrimeQuotient(f, l);
      CoveredHas(n, a, f, q);
      var e := WitnessModFactor(n, a, q, p);
      SameExponent(n, f, r, q, c, e);
      PowerMul(a, r, c, p);
      PowerOfMultiple(x, p, l, k);
    }
  }

  /** A proper divisor l of f divides f/q for some prime factor q of f. */
  lemma PrimeQuotient(f: nat, l: nat) returns (q: nat, c: nat, k: nat)
    requires 0 < l < f && f % l == 0
    ensures Prime(q) && q > 0 && f % q == 0 && f == c * q && c == l * k
  {
    var m := f / l;
    QuotientTimes(f, l);
    assert m >= 2 by { assert m <= 1 ==> m * l <= l; }
    q := HasPrimeFactor(m, 2);
    k := m / q;
    c := l * k;
    ExactQuotient(f, l, q);
  }

  lemma SameExponent(n: nat, f: nat, r: nat, q: nat, c: nat, e: nat)
    requires n > 0 && f * r == n - 1 && f == c * q && e * q == n - 1 && q > 0
    ensures e == r * c
  {
    assert (c * q) * r == (r * c) * q;
    assert (e - r * c) * q == e * q - (r * c) * q;
    SmallMultiple(e - r * c, q);
  }

  lemma CoveredHas(n: nat, a: nat, m: nat, q: nat)
    requires Covered(n, a, m) && Prime(q) && m % q == 0
    ensures Witness(n, a, q)
  {
  }

  lemma LeastExponentOf(n: nat, a: nat, f: nat, r: nat, p: nat, d: nat) returns (l: nat)
    requires n >= 3 && f * r == n - 1 && Power(a, n - 1, n) == 1
    requires p >= 2 && n % p == 0 && 0 < d < f && Power(Power(a, r, p), d, p) == 1
    ensures 0 < l < f && f % l == 0 && Power(Power(a, r, p), l, p) == 1
  {
    hide Power;
    var x := Power(a, r, p);
    l := LeastExponent(x, p, d);
    PowerModDivisor(a, n - 1, n, p);
    Remainder(1, p);
    assert r * f == n - 1;
    PowerMul(a, r, f, p);
    OrderDivides(x, p, l, f);
  }

  lemma ExactQuotient(x: nat, d: nat, q: nat)
    requires d > 0 && q > 0 && x % d == 0 && (x / d) % q == 0
    ensures x % q == 0 && x == (d * ((x / d) / q)) * q
  {
    var c := (x / d) / q;
    assert x == (d * c) * q by {
      QuotientTimes(x, d);
      QuotientTimes(x / d, q);
      assert (c * q) * d == (d * c) * q;
    }
    MultipleMod(d * c, q);
  }

  // ---------- pigeonhole ----------

  lemma {:induction false} SmallSet(s: set<nat>, n: nat)
    requires forall x :: x in s ==> x < n
    ensures |s| <= n
  {
    if n > 0 { SmallSet(s - {n - 1}, n - 1); }
    else { assert s == {}; }
  }

  /** n distinct values below n leave none out. */
  lemma Pigeonhole(xs: seq<nat>, n: nat, y: nat)
    requires |xs| == n && y < n
    requires forall i :: 0 <= i < n ==> xs[i] < n
    requires forall i, j :: 0 <= i < j < n ==> xs[i] != xs[j]
    ensures y in xs
  {
    if y !in xs {
      var s := set x | x in xs;
      DistinctCount(xs, s);
      SmallSet(s + {y}, n);
    }
  }

  lemma {:induction false} DistinctCount(xs: seq<nat>, s: set<nat>)
    requires s == set x | x in xs
    requires forall i, j :: 0 <= i < j < |xs| ==> xs[i] != xs[j]
    ensures |s| == |xs|
  {
    if xs != [] {
      var t := set x | x in xs[1..];
      assert s == {xs[0]} + t;
      DistinctCount(xs[1..], t);
    } else {
      assert s == {};
    }
  }

  predicate Survives(n: nat, p: nat)
    requires p > 0
  {
    n == p || n % p != 0
  }

  lemma {:induction false} SurvivesMultiples(n: nat, p: nat, c: nat)
    requires 2 <= p && 1 <= c && p * c < n && Survives(n, p) && n != p
    ensures n % (p * c) != 0
  {
    if n % (p * c) == 0 {
      var k := n / (p * c);
      QuotientTimes(n, p * c);
      assert n == (k * c) * p by { assert k * (p * c) == (k * c) * p; }
      MultipleMod(k * c, p);
    }
  }

  /** Up to 400 it is enough to try the primes below 20. */
  lemma SmallPrime(n: nat)
    requires 2 <= n < 400
    requires Survives(n, 2) && Survives(n, 3) && Survives(n, 5) && Survives(n, 7)
    requires Survives(n, 11) && Survives(n, 13) && Survives(n, 17) && Survives(n, 19)
    ensures Prime(n)
  {
    forall d {:trigger n % d} | 1 < d < n ensures n % d != 0 {
      if d < 20 {
        NoSmallDivisor(n, d);
      } else if n % d == 0 {
        var c := n / d;
        QuotientTimes(n, d);
        assert 1 < c < 20 by {
          assert c <= 1 ==> c * d <= d;
          assert c >= 20 ==> c * d >= 20 * 20;
        }
        assert n == d * c;
        MultipleMod(d, c);
        NoSmallDivisor(n, c);
      }
    }
  }

  lemma NoSmallDivisor(n: nat, d: nat)
    requires 2 <= d < 20 && d < n < 400
    requires Survives(n, 2) && Survives(n, 3) && Survives(n, 5) && Survives(n, 7)
    requires Survives(n, 11) && Survives(n, 13) && Survives(n, 17) && Survives(n, 19)
    ensures n % d != 0
  {
    var p := if d % 2 == 0 then 2 else if d % 3 == 0 then 3 else if d % 5 == 0 then 5 else d;
    assert n != p;
    assert d == p * (d / p);
    SurvivesMultiples(n, p, d / p);
  }

  /** Pocklington's criterion: every prime factor of n exceeds f, so none is at most the root. */
  lemma Pocklington(n: nat, a: nat, f: nat, r: nat)
    requires n >= 3 && f * r == n - 1 && Power(a, n - 1, n) == 1 && Covered(n, a, f)
    requires f * f >= n
    ensures Prime(n)
  {
    forall d {:trigger n % d} | 1 < d < n ensures n % d != 0 {
      hide Prime, Power, Covered;
      if n % d == 0 {
        var p := FactorBelowRoot(n, d);
        FactorExceeds(n, a, f, r, p);
        SquaresGrow(f, p);
      }
    }
  }

  lemma SquaresGrow(x: nat, y: nat)
    requires x < y
    ensures x * x < y * y
  {
    assert x * x <= x * y < y * y;
  }

  /** The smaller of two cofactors is at most the root. */
  lemma SmallerCofactor(n: nat, c: nat, d: nat) returns (m: nat)
    requires n == c * d && c > 1 && d > 1
    ensures m > 1 && m * m <= n && n % m == 0
  {
    m := if d <= c then d else c;
    if d <= c { assert d * d <= c * d; MultipleMod(c, d); }
    else { assert c * c <= c * d; assert n == d * c; MultipleMod(d, c); }
  }

  lemma FactorBelowRoot(n: nat, d: nat) returns (p: nat)
    requires 1 < d < n && n % d == 0
    ensures Prime(p) && n % p == 0 && p * p <= n
  {
    hide Prime;
    var c := n / d;
    QuotientTimes(n, d);
    assert c > 1 by { assert c <= 1 ==> c * d <= d; }
    var m := SmallerCofactor(n, c, d);
    p := HasPrimeFactor(m, 2);
    if m < p { Remainder(m, p); }
    if p < m { SquaresGrow(p, m); }
    DividesTrans(n, m, p);
  }

  lemma DividesTrans(n: nat, m: nat, p: nat)
    requires m > 0 && p > 0 && n % m == 0 && m % p == 0
    ensures n % p == 0
  {
    ModOfMod(n, m, p);
    Remainder(0, p);
  }

  lemma FactorExceeds(n: nat, a: nat, f: nat, r: nat, p: nat)
    requires n >= 3 && f * r == n - 1 && Power(a, n - 1, n) == 1 && Covered(n, a, f)
    requires Prime(p) && n % p == 0
    ensures p > f
  {
    hide Power, Covered;
    var x := Power(a, r, p);
    PowerModDivisor(a, n - 1, n, p);
    Remainder(1, p);
    assert r * f == n - 1;
    PowerMul(a, r, f, p);
    forall i: nat, j: nat | i < j < f ensures Power(x, i, p) != Power(x, j, p) {
      if Power(x, i, p) == Power(x, j, p) { Cancel(n, a, f, r, p, i, j); }
    }
    forall i: nat | i < f ensures Power(x, i, p) != 0 {
      PowerAdd(x, i, f - i, p);
    }
    var xs := seq(f, i requires 0 <= i < f => Power(x, i, p) - 1);
    var s := set y | y in xs;
    DistinctCount(xs, s);
    SmallSet(s, p - 1);
  }

  lemma Cancel(n: nat, a: nat, f: nat, r: nat, p: nat, i: nat, j: nat)
    requires n >= 3 && f * r == n - 1 && Power(a, n - 1, n) == 1 && Covered(n, a, f)
    requires Prime(p) && n % p == 0 && i < j < f && Power(Power(a, r, p), f, p) == 1
    ensures Power(Power(a, r, p), i, p) != Power(Power(a, r, p), j, p)
  {
    hide Power, Covered;
    var x := Power(a, r, p);
    if Power(x, i, p) == Power(x, j, p) {
      PowerAdd(x, i, f - i, p);
      PowerAdd(x, j, f - i, p);
      assert Power(x, f + (j - i), p) == Power(x, f, p);
      PowerCancel(x, f, j - i, p);
      OrderIsFull(n, a, f, r, p, j - i);
    }
  }
}
