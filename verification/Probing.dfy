/** Double hashing over a prime number of buckets: which bucket a probe visits at each step. */
module Probing {
  import opened Primes

  /** The first bucket of a probe. */
  function Home(h: nat, n: nat): (i: nat)
    requires n >= 2
    ensures i < n
  {
    h % n
  }

  /** Its fixed increment, never a multiple of n. */
  function Increment(h: nat, n: nat): (inc: nat)
    requires n >= 2
    ensures 1 <= inc < n
  {
    1 + h % (n - 1)
  }

  function Advance(i: nat, inc: nat, n: nat): (r: nat)
    requires i < n && inc < n
    ensures r < n
  {
    if i + inc >= n then i + inc - n else i + inc
  }

  /** The bucket visited at step t. */
  function Probe(h: nat, n: nat, t: nat): (i: nat)
    requires n >= 2
    ensures i < n
  {
    if t == 0 then Home(h, n) else Advance(Probe(h, n, t - 1), Increment(h, n), n)
  }

  lemma {:induction false} ProbeClosedForm(h: nat, n: nat, t: nat)
    requires n >= 2
    ensures Probe(h, n, t) == (h % n + t * (1 + h % (n - 1))) % n
  {
    var inc := Increment(h, n);
    if t == 0 {
      Remainder(h % n, n);
    } else {
      ProbeClosedForm(h, n, t - 1);
      var x := h % n + (t - 1) * inc;
      assert h % n + t * inc == x + inc by { assert t * inc == (t - 1) * inc + inc; }
      AdvanceIsAddition(x, inc, n);
    }
  }

  lemma AdvanceIsAddition(x: nat, inc: nat, n: nat)
    requires n >= 2 && inc < n
    ensures Advance(x % n, inc, n) == (x + inc) % n
  {
    var r := x % n;
    ModAddMultiple(r + inc, x / n, n);
    assert x + inc == (r + inc) + (x / n) * n;
    if r + inc >= n {
      ModAddMultiple(r + inc - n, 1, n);
      Remainder(r + inc - n, n);
    } else {
      Remainder(r + inc, n);
    }
  }

  /** A probe does not come back to a bucket within n steps. */
  lemma ProbeInjective(h: nat, n: nat, s: nat, t: nat)
    requires Prime(n) && s < t < s + n
    ensures Probe(h, n, s) != Probe(h, n, t)
  {
    hide Probe;
    var inc := Increment(h, n);
    ProbeClosedForm(h, n, s);
    ProbeClosedForm(h, n, t);
    if Probe(h, n, s) == Probe(h, n, t) {
      var x, y := h % n + s * inc, h % n + t * inc;
      assert y - x == (t - s) * inc by { assert (t - s) * inc == t * inc - s * inc; }
      SameRemainder(y, x, n);
      assert inc * (t - s) == (t - s) * inc;
      Euclid(n, inc, t - s);
      Remainder(t - s, n);
    }
  }

  lemma SameRemainder(y: nat, x: nat, n: nat)
    requires n > 0 && x % n == y % n
    ensures (y - x) % n == 0
  {
    assert y - x == (y / n - x / n) * n by {
      assert y == (y / n) * n + y % n && x == (x / n) * n + x % n;
      assert (y / n - x / n) * n == (y / n) * n - (x / n) * n;
    }
    MultipleMod(y / n - x / n, n);
  }

  /** After n steps the probe is back at its first bucket. */
  lemma ProbeReturns(h: nat, n: nat)
    requires n >= 2
    ensures Probe(h, n, n) == Probe(h, n, 0)
  {
    ProbeClosedForm(h, n, n);
    var inc := Increment(h, n);
    assert n * inc == inc * n;
    ModAddMultiple(h % n, inc, n);
    Remainder(h % n, n);
  }

  /** Within n steps a probe visits every bucket. */
  lemma ProbeCovers(h: nat, n: nat, i: nat) returns (t: nat)
    requires Prime(n) && i < n
    ensures t < n && Probe(h, n, t) == i
  {
    hide Probe;
    var xs := seq(n, s requires 0 <= s < n => Probe(h, n, s));
    forall s, u | 0 <= s < u < n ensures xs[s] != xs[u] {
      ProbeInjective(h, n, s, u);
    }
    Pigeonhole(xs, n, i);
    t :| 0 <= t < n && xs[t] == i;
  }
}
