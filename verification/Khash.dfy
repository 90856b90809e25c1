/** The open-addressing hash map: double hashing, tombstones, and a resize that rehashes in place. */
module Khash {
  import opened Primes
  import opened PrimeSizes
  import opened Probing
  import opened KhashFlags

  // ---------- the table as sequences ----------

  /** Bucket i is on the probe path of hash h, and no bucket before it on that path is empty. */
  ghost predicate Reachable(slots: seq<Slot>, h: nat, i: nat) {
    |slots| >= 2 && exists t: nat :: ReachedAt(slots, h, i, t)
  }

  ghost predicate ReachedAt(slots: seq<Slot>, h: nat, i: nat, t: nat)
    requires |slots| >= 2
  {
    t < |slots| && Probe(h, |slots|, t) == i && Unbroken(slots, h, t)
  }

  /** The first t buckets of the probe path of h are not empty. */
  ghost predicate Unbroken(slots: seq<Slot>, h: nat, t: nat)
    requires |slots| >= 2
  {
    forall s: nat :: s < t ==> slots[Probe(h, |slots|, s)] != Empty
  }

  /** pos locates exactly the keys in live buckets. */
  ghost predicate Locates<K>(slots: seq<Slot>, keys: seq<K>, pos: map<K, nat>) {
    && |slots| <= |keys|
    && (forall k :: k in pos ==> pos[k] < |slots| && slots[pos[k]] == Live && keys[pos[k]] == k)
    && (forall i :: 0 <= i < |slots| && slots[i] == Live ==> keys[i] in pos && pos[keys[i]] == i)
  }

  ghost predicate AllReachable<K>(hash: K -> nat, slots: seq<Slot>, pos: map<K, nat>) {
    forall k :: k in pos ==> Reachable(slots, hash(k), pos[k])
  }

  ghost predicate Clean(slots: seq<Slot>) {
    forall i :: 0 <= i < |slots| ==> slots[i] != Both
  }

  ghost function Occupied(slots: seq<Slot>): set<nat> {
    set i: nat | i < |slots| && slots[i] != Empty
  }

  ghost function ContentsOf<K, V>(vals: seq<V>, pos: map<K, nat>): map<K, V>
    requires forall k :: k in pos ==> pos[k] < |vals|
  {
    map k | k in pos :: vals[pos[k]]
  }

  /** floor(0.77 n + 0.5). */
  function UpperBound(n: nat): nat {
    (77 * n + 50) / 100
  }

  /** The bound is 0.77 times the size, rounded to the nearest number. */
  lemma BoundIs(n: nat)
    ensures UpperBound(n) as real <= 0.77 * n as real + 0.5 < UpperBound(n) as real + 1.0
  {
    BoundQuotient(77 * n + 50, UpperBound(n));
  }

  lemma BoundQuotient(x: nat, q: nat)
    requires q == x / 100
    ensures 100 * q <= x < 100 * q + 100
  {
  }

  // ---------- counting ----------

  lemma {:induction false} InjectiveSize<K>(pos: map<K, nat>, s: set<nat>)
    requires forall k :: k in pos ==> pos[k] in s
    requires forall k, l :: k in pos && l in pos && pos[k] == pos[l] ==> k == l
    ensures |pos| <= |s|
  {
    if pos != map[] {
      var k :| k in pos;
      var rest := pos - {k};
      assert pos.Keys == rest.Keys + {k};
      InjectiveSize(rest, s - {pos[k]});
    }
  }

  /** At least as many buckets are occupied as keys are live. */
  lemma LiveAtMostOccupied<K>(slots: seq<Slot>, keys: seq<K>, pos: map<K, nat>)
    requires Locates(slots, keys, pos)
    ensures |pos| <= |Occupied(slots)|
  {
    InjectiveSize(pos, Occupied(slots));
  }

  lemma {:induction false} RangeSize(s: set<nat>, n: nat)
    requires forall i: nat :: i in s <==> i < n
    ensures |s| == n
  {
    if n == 0 { assert s == {}; } else { RangeSize(s - {n - 1}, n - 1); }
  }

  /** With fewer occupied buckets than buckets, some bucket is empty. */
  lemma SomeEmpty(slots: seq<Slot>) returns (i: nat)
    requires |Occupied(slots)| < |slots|
    ensures i < |slots| && slots[i] == Empty
  {
    if forall j: nat :: j < |slots| ==> slots[j] != Empty {
      RangeSize(Occupied(slots), |slots|);
    }
    i :| i < |slots| && slots[i] == Empty;
  }

  /** When every occupied bucket is live, no more buckets are occupied than keys are located. */
  lemma {:induction false} OccupiedAtMostLocated<K>(s: set<nat>, keys: seq<K>, pos: map<K, nat>)
    requires forall i :: i in s ==> i < |keys| && keys[i] in pos && pos[keys[i]] == i
    ensures |s| <= |pos|
  {
    if s != {} {
      var i :| i in s;
      var rest := pos - {keys[i]};
      assert pos.Keys == rest.Keys + {keys[i]};
      OccupiedAtMostLocated(s - {i}, keys, rest);
    }
  }

  lemma {:induction false} SubmapSize<K, V>(pos: map<K, nat>, m: map<K, V>)
    requires forall k :: k in pos ==> k in m
    ensures |pos| <= |m|
  {
    if pos != map[] {
      var k :| k in pos;
      assert pos.Keys == (pos - {k}).Keys + {k};
      assert m.Keys == (m - {k}).Keys + {k};
      SubmapSize(pos - {k}, m - {k});
    }
  }

  // ---------- the choice of a new size ----------

  ghost predicate Listed(n: nat) {
    exists t: nat :: 1 <= t < 32 && PRIME_LIST[t] == n
  }

  lemma ListedIsPrime(n: nat)
    requires Listed(n)
    ensures Prime(n) && n >= 3
  {
    hide Prime;
    var t: nat :| 1 <= t < 32 && PRIME_LIST[t] == n;
    ListedSizesArePrime(t);
  }

  lemma RemoveSize<K>(pos: map<K, nat>, key: K)
    requires key in pos
    ensures |pos - {key}| == |pos| - 1
  {
    assert pos.Keys == (pos - {key}).Keys + {key};
  }

  lemma Ascending(t: nat)
    requires t < 31
    ensures PRIME_LIST[t] < PRIME_LIST[t + 1]
  {
  }

  lemma {:induction false} AscendingTo(t: nat, u: nat)
    requires t <= u < 32
    ensures PRIME_LIST[t] <= PRIME_LIST[u]
    decreases u - t
  {
    hide PRIME_LIST;
    if t < u {
      Ascending(t);
      AscendingTo(t + 1, u);
    }
  }

  /** m is the least listed size above n. */
  ghost predicate IsNextSize(n: nat, m: nat) {
    Listed(m) && n < m && forall p :: Listed(p) && n < p ==> m <= p
  }

  lemma NextSizeUnique(n: nat, m: nat, p: nat)
    requires IsNextSize(n, m) && IsNextSize(n, p)
    ensures m == p
  {
    hide Listed;
  }

  /** Asking for one less than a listed size gives that size back, and a table less than half full
    * fits it. */
  lemma SameSize(n: nat, size: nat)
    requires Listed(n) && n > 2 * size
    ensures IsNextSize(n - 1, n) && size < UpperBound(n) && n <= LAST_SIZE
  {
    ListedIsPrime(n);
    var t: nat :| 1 <= t < 32 && PRIME_LIST[t] == n;
    AscendingTo(t, 31);
  }

  /** Asking for one more than a size gives one whose bound is strictly larger. */
  lemma Grows(n: nat, size: nat, target: nat)
    requires IsNextSize(n + 1, target) && size <= UpperBound(n)
    ensures size < UpperBound(target)
  {
    hide Listed;
  }

  lemma NextSizeFits(n: nat, m: nat)
    requires IsNextSize(n, m)
    ensures Listed(m) && Prime(m) && UpperBound(m) < m
  {
    hide Prime, Listed;
    ListedIsPrime(m);
    BoundBelow(m);
  }

  /** The bound of a listed size is below it, so that some bucket always stays empty. */
  lemma BoundBelow(n: nat)
    requires n >= 3
    ensures UpperBound(n) < n
  {
  }

  const LAST_SIZE: nat := 4294967291

  /** The least listed size above n. */
  method NextSize(n: nat) returns (m: nat)
    requires n < LAST_SIZE
    ensures IsNextSize(n, m)
  {
    var t: nat := 31;
    assert PRIME_LIST[31] == LAST_SIZE && PRIME_LIST[0] == 0;
    while PRIME_LIST[t] > n
      invariant t < 32
      invariant forall u: nat :: t < u < 32 ==> PRIME_LIST[u] > n
    {
      t := t - 1;
    }
    m := PRIME_LIST[t + 1];
    NextSizeAt(n, t);
  }

  lemma NextSizeAt(n: nat, t: nat)
    requires t < 31 && PRIME_LIST[t] <= n < PRIME_LIST[t + 1]
    ensures IsNextSize(n, PRIME_LIST[t + 1])
  {
    forall p | Listed(p) && n < p ensures PRIME_LIST[t + 1] <= p {
      var u: nat :| 1 <= u < 32 && PRIME_LIST[u] == p;
      if u <= t { AscendingTo(u, t); } else { AscendingTo(t + 1, u); }
    }
  }

  // ---------- the middle of a resize ----------

  /** pos locates the live keys of one flag array, with their values in m. */
  ghost predicate Side<K, V>(slots: seq<Slot>, keys: seq<K>, vals: seq<V>, pos: map<K, nat>, m: map<K, V>) {
    && |keys| == |vals|
    && Locates(slots, keys, pos)
    && forall k :: k in pos ==> k in m && vals[pos[k]] == m[k]
  }

  /** While rehashing, the old flags hold the entries not yet processed and the new flags those
    * already placed, in the same key and value arrays. */
  ghost predicate Midway<K, V>(hash: K -> nat, m: map<K, V>, before: seq<Slot>, after: seq<Slot>,
                                     keys: seq<K>, vals: seq<V>, todo: map<K, nat>, done: map<K, nat>)
  {
    && Side(before, keys, vals, todo, m)
    && Side(after, keys, vals, done, m)
    && AllReachable(hash, after, done)
    && (forall i :: 0 <= i < |after| ==> after[i] == Live || after[i] == Empty)
    && (forall i :: 0 <= i < |before| && i < |after| && before[i] == Live ==> after[i] == Empty)
    && todo.Keys !! done.Keys
  }

  /** The entry in hand is the only one of m in neither part. */
  ghost predicate InHand<K, V>(m: map<K, V>, todo: map<K, nat>, done: map<K, nat>, key: K) {
    key in m && key !in todo && key !in done && m.Keys == todo.Keys + done.Keys + {key}
  }

  lemma ReachableMonotone(slots: seq<Slot>, h: nat, i: nat, j: nat)
    requires Reachable(slots, h, i) && j < |slots| && slots[j] != Both
    ensures Reachable(slots[j := Live], h, i)
    ensures slots[j] == Live ==> Reachable(slots[j := Deleted], h, i)
  {
    var t: nat :| ReachedAt(slots, h, i, t);
    assert ReachedAt(slots[j := Live], h, i, t);
    assert slots[j] == Live ==> ReachedAt(slots[j := Deleted], h, i, t);
  }

  /** Placing the entry in hand at an empty bucket of its path keeps every placed key reachable. */
  lemma PlacedReachable<K>(hash: K -> nat, after: seq<Slot>, done: map<K, nat>, key: K, i: nat, t: nat)
    requires AllReachable(hash, after, done) && key !in done
    requires |after| >= 2 && i < |after| && after[i] == Empty && ReachedAt(after, hash(key), i, t)
    ensures AllReachable(hash, after[i := Live], done[key := i])
  {
    var next := done[key := i];
    forall k | k in next ensures Reachable(after[i := Live], hash(k), next[k]) {
      if k == key {
        assert ReachedAt(after[i := Live], hash(key), i, t);
      } else {
        ReachableMonotone(after, hash(k), done[k], i);
      }
    }
  }

  /** The entry in hand takes the bucket of an unprocessed entry, which comes into hand. */
  lemma KickOut<K, V>(hash: K -> nat, m: map<K, V>, before: seq<Slot>, after: seq<Slot>, keys: seq<K>, vals: seq<V>,
                      todo: map<K, nat>, done: map<K, nat>, key: K, i: nat, t: nat)
    requires Midway(hash, m, before, after, keys, vals, todo, done) && InHand(m, todo, done, key)
    requires |after| >= 2 && i < |after| && after[i] == Empty && ReachedAt(after, hash(key), i, t)
    requires i < |before| && before[i] == Live
    ensures keys[i] in todo
    ensures Midway(hash, m, before[i := Deleted], after[i := Live], keys[i := key], vals[i := m[key]],
                   todo - {keys[i]}, done[key := i])
    ensures InHand(m, todo - {keys[i]}, done[key := i], keys[i]) && keys[i] in m && vals[i] == m[keys[i]]
  {
    hide AllReachable, ReachedAt;
    PlacedReachable(hash, after, done, key, i, t);
  }

  /** The entry in hand takes a bucket that holds no unprocessed entry. */
  lemma Settle<K, V>(hash: K -> nat, m: map<K, V>, before: seq<Slot>, after: seq<Slot>, keys: seq<K>, vals: seq<V>,
                     todo: map<K, nat>, done: map<K, nat>, key: K, i: nat, t: nat)
    requires Midway(hash, m, before, after, keys, vals, todo, done) && InHand(m, todo, done, key)
    requires |after| >= 2 && i < |after| && after[i] == Empty && ReachedAt(after, hash(key), i, t)
    requires !(i < |before| && before[i] == Live)
    ensures Midway(hash, m, before, after[i := Live], keys[i := key], vals[i := m[key]], todo, done[key := i])
    ensures m.Keys == todo.Keys + done[key := i].Keys
  {
    hide AllReachable, ReachedAt;
    PlacedReachable(hash, after, done, key, i, t);
  }

  /** Taking an unprocessed entry in hand. */
  lemma PickUp<K, V>(hash: K -> nat, m: map<K, V>, before: seq<Slot>, after: seq<Slot>, keys: seq<K>, vals: seq<V>,
                     todo: map<K, nat>, done: map<K, nat>, j: nat)
    requires Midway(hash, m, before, after, keys, vals, todo, done) && m.Keys == todo.Keys + done.Keys
    requires j < |before| && before[j] == Live
    ensures keys[j] in todo && vals[j] == m[keys[j]]
    ensures Midway(hash, m, before[j := Deleted], after, keys, vals, todo - {keys[j]}, done)
    ensures InHand(m, todo - {keys[j]}, done, keys[j])
  {
    hide AllReachable;
  }

  /** There is always an empty bucket for the entry in hand. */
  lemma RoomForHand<K, V>(hash: K -> nat, m: map<K, V>, before: seq<Slot>, after: seq<Slot>, keys: seq<K>, vals: seq<V>,
                          todo: map<K, nat>, done: map<K, nat>, key: K) returns (i: nat)
    requires Midway(hash, m, before, after, keys, vals, todo, done) && InHand(m, todo, done, key)
    requires |m| <= |after|
    ensures i < |after| && after[i] == Empty
  {
    hide AllReachable;
    OccupiedAtMostLocated(Occupied(after), keys, done);
    SubmapSize(done, m - {key});
    assert m.Keys == (m - {key}).Keys + {key};
    i := SomeEmpty(after);
  }
}
