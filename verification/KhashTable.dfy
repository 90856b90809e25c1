/** The map object and its operations. */
module KhashTable {
  import opened Primes
  import opened PrimeSizes
  import opened Probing
  import opened KhashFlags
  import opened Khash

  /** The inner probe of a resize: it has no bound of its own, and stops because some bucket is
    * empty and the probe visits every bucket. */
  method FindEmpty(flags: array<bv32>, n: nat, h: nat, ghost free: nat) returns (i: nat, ghost t: nat)
    requires Prime(n) && n <= 16 * flags.Length && Clean(Slots(flags[..], n))
    requires free < n && Slots(flags[..], n)[free] == Empty
    ensures i < n && Slots(flags[..], n)[i] == Empty
    ensures ReachedAt(Slots(flags[..], n), h, i, t)
  {
    hide *;
    PrimeIsBig(n);
    ghost var slots := Slots(flags[..], n);
    ghost var last := ProbeCovers(h, n, free);
    var inc := Increment(h, n);
    i := Home(h, n);
    t := 0;
    FirstProbe(slots, h, n);
    while !EmptyAt(flags, n, i)
      invariant t <= last && i == Probe(h, n, t) && i < n
      invariant Unbroken(slots, h, t)
      decreases last - t
    {
      NextProbe(slots, h, n, t);
      i := Advance(i, inc, n);
      t := t + 1;
      StopsAtEmpty(slots, h, t, last);
    }
    CleanEmpty(slots, h, t);
  }

  lemma PrimeIsBig(n: nat)
    requires Prime(n)
    ensures n >= 2
  {
  }

  lemma FirstProbe(slots: seq<Slot>, h: nat, n: nat)
    requires |slots| == n >= 2
    ensures Probe(h, n, 0) == Home(h, n) && Unbroken(slots, h, 0)
  {
  }

  lemma NextProbe(slots: seq<Slot>, h: nat, n: nat, t: nat)
    requires |slots| == n >= 2 && Unbroken(slots, h, t) && slots[Probe(h, n, t)] != Empty
    ensures Probe(h, n, t + 1) == Advance(Probe(h, n, t), Increment(h, n), n)
    ensures Unbroken(slots, h, t + 1)
  {
    hide Probe;
    ProbeStep(h, n, t);
  }

  lemma ProbeStep(h: nat, n: nat, t: nat)
    requires n >= 2
    ensures Probe(h, n, t + 1) == Advance(Probe(h, n, t), Increment(h, n), n)
  {
  }

  lemma StopsAtEmpty(slots: seq<Slot>, h: nat, t: nat, last: nat)
    requires |slots| >= 2 && Unbroken(slots, h, t) && slots[Probe(h, |slots|, last)] == Empty
    ensures t <= last
  {
  }

  lemma CleanEmpty(slots: seq<Slot>, h: nat, t: nat)
    requires |slots| >= 2 && Clean(slots) && Unbroken(slots, h, t) && t < |slots|
    requires slots[Probe(h, |slots|, t)] == Empty || slots[Probe(h, |slots|, t)] == Both
    ensures slots[Probe(h, |slots|, t)] == Empty && ReachedAt(slots, h, Probe(h, |slots|, t), t)
  {
  }

  lemma MidwayLengths<K, V>(hash: K -> nat, m: map<K, V>, before: seq<Slot>, after: seq<Slot>,
                            keys: seq<K>, vals: seq<V>, todo: map<K, nat>, done: map<K, nat>)
    requires Midway(hash, m, before, after, keys, vals, todo, done)
    ensures |before| <= |keys| && |after| <= |keys| && |keys| == |vals| && Clean(after)
  {
  }

  /** Every bucket that is not live stays so. */
  ghost predicate NoneAppear(was: seq<Slot>, now: seq<Slot>) {
    |was| == |now| && forall i :: 0 <= i < |was| && was[i] != Live ==> now[i] != Live
  }

  lemma NoneAppearSame(s: seq<Slot>)
    ensures NoneAppear(s, s)
  {
  }

  lemma NoneAppearDeleted(was: seq<Slot>, now: seq<Slot>, i: nat)
    requires NoneAppear(was, now) && i < |now|
    ensures NoneAppear(was, now[i := Deleted])
  {
  }

  /** Put an entry in bucket i and return what was there. */
  method Exchange<K, V>(keys: array<K>, vals: array<V>, i: nat, key: K, val: V) returns (k: K, v: V)
    requires i < keys.Length && i < vals.Length && keys as object != vals
    modifies keys, vals
    ensures keys[..] == old(keys[..])[i := key] && vals[..] == old(vals[..])[i := val]
    ensures k == old(keys[..])[i] && v == old(vals[..])[i]
  {
    k, v := keys[i], vals[i];
    keys[i] := key;
    vals[i] := val;
  }

  /** The kick-out chain of a resize: place the entry in hand, take the unprocessed entry it
    * displaces in hand, and go on until a bucket holds none. */
  method KickOutChain<K(==), V>(hash: K -> nat, flags: array<bv32>, n0: nat, newFlags: array<bv32>, n1: nat,
                                keys: array<K>, vals: array<V>, key0: K, val0: V,
                                ghost m: map<K, V>, ghost todo0: map<K, nat>, ghost done0: map<K, nat>)
    returns (ghost todo: map<K, nat>, ghost done: map<K, nat>)
    requires flags != newFlags && keys as object != vals && keys as object !in {flags, newFlags} && vals as object !in {flags, newFlags}
    requires n0 <= 16 * flags.Length && n1 <= 16 * newFlags.Length && Prime(n1)
    requires Midway(hash, m, Slots(flags[..], n0), Slots(newFlags[..], n1), keys[..], vals[..], todo0, done0)
    requires InHand(m, todo0, done0, key0) && m[key0] == val0 && |m| <= n1
    modifies flags, newFlags, keys, vals
    ensures Midway(hash, m, Slots(flags[..], n0), Slots(newFlags[..], n1), keys[..], vals[..], todo, done)
    ensures m.Keys == todo.Keys + done.Keys
    ensures NoneAppear(old(Slots(flags[..], n0)), Slots(flags[..], n0))
  {
    PrimeIsBig(n1);
    assert key0 in m;
    NoneAppearSame(Slots(flags[..], n0));
    hide *;
    var key, val := key0, val0;
    todo, done := todo0, done0;
    while true
      invariant Midway(hash, m, Slots(flags[..], n0), Slots(newFlags[..], n1), keys[..], vals[..], todo, done)
      invariant InHand(m, todo, done, key)
      invariant key in m && m[key] == val
      invariant NoneAppear(old(Slots(flags[..], n0)), Slots(flags[..], n0))
      decreases |todo|
    {
      ghost var before, after, ks, vs := Slots(flags[..], n0), Slots(newFlags[..], n1), keys[..], vals[..];
      MidwayLengths(hash, m, before, after, ks, vs, todo, done);
      ghost var free := RoomForHand(hash, m, before, after, ks, vs, todo, done, key);
      var i, t := FindEmpty(newFlags, n1, hash(key), free);
      SetOccupied(newFlags, n1, i);
      var k, v := Exchange(keys, vals, i, key, val);
      if i < n0 && !EitherAt(flags, n0, i) {
        KickOut(hash, m, before, after, ks, vs, todo, done, key, i, t);
        RemoveSize(todo, k);
        todo, done := todo - {k}, done[key := i];
        key, val := k, v;
        SetDeleted(flags, n0, i);
        NoneAppearDeleted(old(Slots(flags[..], n0)), before, i);
      } else {
        Settle(hash, m, before, after, ks, vs, todo, done, key, i, t);
        done := done[key := i];
        break;
      }
    }
  }

  /** The outer loop of a resize: every live entry is taken in hand in turn. */
  method RehashAll<K(==), V>(hash: K -> nat, flags: array<bv32>, n0: nat, newFlags: array<bv32>, n1: nat,
                             keys: array<K>, vals: array<V>, ghost m: map<K, V>, ghost pos: map<K, nat>)
    returns (ghost done: map<K, nat>)
    requires flags != newFlags && keys as object != vals && keys as object !in {flags, newFlags} && vals as object !in {flags, newFlags}
    requires n0 <= 16 * flags.Length && n1 <= 16 * newFlags.Length && Prime(n1) && |m| <= n1
    requires n0 <= keys.Length == vals.Length
    requires Midway(hash, m, Slots(flags[..], n0), Slots(newFlags[..], n1), keys[..], vals[..], pos, map[])
    requires m.Keys == pos.Keys
    modifies flags, newFlags, keys, vals
    ensures Rehashed(hash, m, Slots(newFlags[..], n1), keys[..], vals[..], done)
  {
    hide *;
    ghost var todo := pos;
    done := map[];
    var j := 0;
    DrainedNone(Slots(flags[..], n0));
    while j != n0
      invariant j <= n0
      invariant Midway(hash, m, Slots(flags[..], n0), Slots(newFlags[..], n1), keys[..], vals[..], todo, done)
      invariant m.Keys == todo.Keys + done.Keys
      invariant Drained(Slots(flags[..], n0), j)
    {
      if !EitherAt(flags, n0, j) {
        ghost var before, after := Slots(flags[..], n0), Slots(newFlags[..], n1);
        var key, val := keys[j], vals[j];
        PickUp(hash, m, before, after, keys[..], vals[..], todo, done, j);
        SetDeleted(flags, n0, j);
        DrainedNext(before, before[j := Deleted], j);
        todo, done := KickOutChain(hash, flags, n0, newFlags, n1, keys, vals, key, val, m, todo - {key}, done);
        DrainedStays(before[j := Deleted], Slots(flags[..], n0), j + 1);
      } else {
        DrainedNext(Slots(flags[..], n0), Slots(flags[..], n0), j);
      }
      j := j + 1;
    }
    AllDone(hash, m, Slots(flags[..], n0), Slots(newFlags[..], n1), keys[..], vals[..], todo, done);
  }

  /** None of the first j buckets is live. */
  ghost predicate Drained(slots: seq<Slot>, j: nat) {
    j <= |slots| && forall i :: 0 <= i < j ==> slots[i] != Live
  }

  lemma DrainedNone(slots: seq<Slot>)
    ensures Drained(slots, 0)
  {
  }

  lemma DrainedNext(was: seq<Slot>, now: seq<Slot>, j: nat)
    requires j < |was| && |now| == |was| && Drained(was, j) && now[..j] == was[..j] && now[j] != Live
    ensures Drained(now, j + 1)
  {
    forall i | 0 <= i < j ensures now[i] == was[i] {
      assert now[..j][i] == was[..j][i];
    }
  }

  lemma DrainedStays(was: seq<Slot>, now: seq<Slot>, j: nat)
    requires Drained(was, j) && NoneAppear(was, now)
    ensures Drained(now, j)
  {
  }

  /** The outcome of rehashing: the new flags alone locate every entry of m. */
  ghost predicate Rehashed<K, V>(hash: K -> nat, m: map<K, V>, after: seq<Slot>, keys: seq<K>, vals: seq<V>,
                                 done: map<K, nat>)
  {
    && Side(after, keys, vals, done, m)
    && AllReachable(hash, after, done)
    && (forall i :: 0 <= i < |after| ==> after[i] == Live || after[i] == Empty)
    && done.Keys == m.Keys
  }

  lemma AllDone<K, V>(hash: K -> nat, m: map<K, V>, before: seq<Slot>, after: seq<Slot>, keys: seq<K>, vals: seq<V>,
                      todo: map<K, nat>, done: map<K, nat>)
    requires Midway(hash, m, before, after, keys, vals, todo, done) && m.Keys == todo.Keys + done.Keys
    requires Drained(before, |before|)
    ensures Rehashed(hash, m, after, keys, vals, done)
  {
    hide AllReachable;
    forall k ensures k !in todo {
    }
  }

  // ---------- searching ----------

  /** The invariant tying flags, keys and key locations together. */
  ghost predicate Consistent<K>(hash: K -> nat, slots: seq<Slot>, keys: seq<K>, pos: map<K, nat>) {
    && |keys| == |slots|
    && Clean(slots)
    && Locates(slots, keys, pos)
    && AllReachable(hash, slots, pos)
  }

  /** The first t buckets of the path of h are neither empty nor hold the key. */
  ghost predicate Missed<K>(slots: seq<Slot>, keys: seq<K>, h: nat, key: K, t: nat)
    requires |slots| == |keys| >= 2
  {
    forall s: nat :: s < t ==> var i := Probe(h, |slots|, s); slots[i] != Empty && (slots[i] == Live ==> keys[i] != key)
  }

  lemma MissedNone<K>(slots: seq<Slot>, keys: seq<K>, h: nat, key: K)
    requires |slots| == |keys| >= 2
    ensures Missed(slots, keys, h, key, 0) && Probe(h, |slots|, 0) == Home(h, |slots|)
  {
  }

  lemma MissedNext<K>(slots: seq<Slot>, keys: seq<K>, h: nat, key: K, t: nat)
    requires |slots| == |keys| >= 2 && Missed(slots, keys, h, key, t) && Clean(slots)
    requires var i := Probe(h, |slots|, t); slots[i] != Empty && (slots[i] == Deleted || keys[i] != key)
    ensures Missed(slots, keys, h, key, t + 1) && Unbroken(slots, h, t + 1)
    ensures Probe(h, |slots|, t + 1) == Advance(Probe(h, |slots|, t), Increment(h, |slots|), |slots|)
  {
    hide Probe;
    ProbeStep(h, |slots|, t);
  }

  /** Coming back to the first bucket means that all of them have been visited. */
  lemma BackAtStart(h: nat, n: nat, t: nat)
    requires Prime(n) && 0 < t <= n && n >= 2
    ensures Probe(h, n, t) == Probe(h, n, 0) <==> t == n
  {
    hide Probe;
    ProbeReturns(h, n);
    if t < n { ProbeInjective(h, n, 0, t); }
  }

  lemma AbsentWhenEmpty<K>(hash: K -> nat, slots: seq<Slot>, keys: seq<K>, pos: map<K, nat>, key: K, t: nat)
    requires Consistent(hash, slots, keys, pos) && |slots| >= 2
    requires Missed(slots, keys, hash(key), key, t) && slots[Probe(hash(key), |slots|, t)] == Empty
    ensures key !in pos
  {
    hide Probe;
  }

  lemma AbsentWhenWrapped<K>(hash: K -> nat, slots: seq<Slot>, keys: seq<K>, pos: map<K, nat>, key: K)
    requires Consistent(hash, slots, keys, pos) && |slots| >= 2
    requires Missed(slots, keys, hash(key), key, |slots|)
    ensures key !in pos
  {
    hide Probe;
  }

  lemma FoundLive<K>(hash: K -> nat, slots: seq<Slot>, keys: seq<K>, pos: map<K, nat>, i: nat)
    requires Consistent(hash, slots, keys, pos) && i < |slots| && slots[i] == Live
    ensures keys[i] in pos && pos[keys[i]] == i
  {
  }

  lemma MissedReach<K>(slots: seq<Slot>, keys: seq<K>, h: nat, key: K, t: nat)
    requires |slots| == |keys| >= 2 && Missed(slots, keys, h, key, t) && t < |slots|
    ensures Reachable(slots, h, Probe(h, |slots|, t))
  {
    hide Probe;
    assert ReachedAt(slots, h, Probe(h, |slots|, t), t);
  }

  // ---------- single updates ----------

  lemma Insert<K>(hash: K -> nat, slots: seq<Slot>, keys: seq<K>, pos: map<K, nat>, key: K, x: nat)
    requires Consistent(hash, slots, keys, pos) && key !in pos
    requires x < |slots| && slots[x] != Live && Reachable(slots, hash(key), x)
    ensures Consistent(hash, slots[x := Live], keys[x := key], pos[key := x])
    ensures |pos[key := x]| == |pos| + 1
    ensures |Occupied(slots[x := Live])| == |Occupied(slots)| + (if slots[x] == Empty then 1 else 0)
  {
    hide Probe, Reachable, Occupied, Locates, Clean, AllReachable;
    InsertReachable(hash, slots, pos, key, x);
    InsertLocates(slots, keys, pos, key, x);
    assert pos[key := x].Keys == pos.Keys + {key};
    OccupiedUpdate(slots, x);
  }

  lemma InsertReachable<K>(hash: K -> nat, slots: seq<Slot>, pos: map<K, nat>, key: K, x: nat)
    requires Clean(slots) && AllReachable(hash, slots, pos) && x < |slots| && Reachable(slots, hash(key), x)
    ensures AllReachable(hash, slots[x := Live], pos[key := x])
  {
    hide Probe, Reachable;
    var next := pos[key := x];
    forall k | k in next ensures Reachable(slots[x := Live], hash(k), next[k]) {
      ReachableMonotone(slots, hash(k), next[k], x);
    }
  }

  lemma InsertLocates<K>(slots: seq<Slot>, keys: seq<K>, pos: map<K, nat>, key: K, x: nat)
    requires |keys| == |slots| && Clean(slots) && Locates(slots, keys, pos) && key !in pos && x < |slots| && slots[x] != Live
    ensures Clean(slots[x := Live]) && Locates(slots[x := Live], keys[x := key], pos[key := x])
  {
  }

  lemma OccupiedUpdate(slots: seq<Slot>, x: nat)
    requires x < |slots|
    ensures |Occupied(slots[x := Live])| == |Occupied(slots)| + (if slots[x] == Empty then 1 else 0)
    ensures slots[x] != Empty ==> |Occupied(slots[x := Deleted])| == |Occupied(slots)|
  {
    assert Occupied(slots[x := Live]) == Occupied(slots) + {x};
    assert slots[x] == Empty ==> x !in Occupied(slots);
    assert slots[x] != Empty ==> Occupied(slots[x := Deleted]) == Occupied(slots);
  }

  lemma Remove<K>(hash: K -> nat, slots: seq<Slot>, keys: seq<K>, pos: map<K, nat>, x: nat)
    requires Consistent(hash, slots, keys, pos) && x < |slots| && slots[x] == Live
    ensures keys[x] in pos && pos[keys[x]] == x
    ensures Consistent(hash, slots[x := Deleted], keys, pos - {keys[x]})
    ensures |pos - {keys[x]}| == |pos| - 1
    ensures |Occupied(slots[x := Deleted])| == |Occupied(slots)|
  {
    hide Probe, Reachable;
    var next := pos - {keys[x]};
    forall k | k in next ensures Reachable(slots[x := Deleted], hash(k), next[k]) {
      ReachableMonotone(slots, hash(k), next[k], x);
    }
    RemoveSize(pos, keys[x]);
    OccupiedUpdate(slots, x);
  }

  // ---------- the two ends of a resize ----------

  lemma StartRehash<K, V>(hash: K -> nat, slots: seq<Slot>, keys: seq<K>, vals: seq<V>, pos: map<K, nat>,
                          after: seq<Slot>, ks: seq<K>, vs: seq<V>)
    requires Consistent(hash, slots, keys, pos) && |vals| == |keys| <= |ks| == |vs| && |after| <= |ks|
    requires ks[..|keys|] == keys && vs[..|vals|] == vals
    requires forall i :: 0 <= i < |after| ==> after[i] == Empty
    ensures Midway(hash, ContentsOf(vals, pos), slots, after, ks, vs, pos, map[])
    ensures ContentsOf(vals, pos).Keys == pos.Keys
  {
    hide AllReachable;
    assert AllReachable(hash, after, map[]) by { NothingReachable(hash, after); }
    forall i | 0 <= i < |keys| ensures ks[i] == keys[i] && vs[i] == vals[i] {
      assert ks[..|keys|][i] == ks[i] && vs[..|vals|][i] == vs[i];
    }
  }

  lemma NothingReachable<K>(hash: K -> nat, after: seq<Slot>)
    ensures AllReachable(hash, after, map[])
  {
  }

  lemma FinishRehash<K, V>(hash: K -> nat, m: map<K, V>, after: seq<Slot>, ks: seq<K>, vs: seq<V>, done: map<K, nat>,
                           keys: seq<K>, vals: seq<V>)
    requires Rehashed(hash, m, after, ks, vs, done) && |keys| == |vals| == |after| <= |ks|
    requires keys == ks[..|after|] && vals == vs[..|after|]
    ensures Consistent(hash, after, keys, done) && ContentsOf(vals, done) == m
    ensures |Occupied(after)| == |done| == |m|
  {
    hide AllReachable;
    OccupiedAtMostLocated(Occupied(after), keys, done);
    LiveAtMostOccupied(after, keys, done);
    assert |done.Keys| == |m.Keys|;
  }

  method Reallocate<T(0)>(a: array<T>, n: nat) returns (b: array<T>)
    ensures fresh(b) && b.Length == n
    ensures n <= a.Length ==> b[..] == a[..n]
    ensures a.Length <= n ==> b[..a.Length] == a[..]
  {
    b := new T[n];
    forall i | 0 <= i < n && i < a.Length {
      b[i] := a[i];
    }
  }

  lemma PositionsInRange<K>(hash: K -> nat, slots: seq<Slot>, keys: seq<K>, pos: map<K, nat>)
    requires Consistent(hash, slots, keys, pos)
    ensures |slots| == |keys| && forall k :: k in pos ==> pos[k] < |keys|
  {
  }

  /** The rehashing part of a resize; the result replaces the table's buffers. */
  method RebuildWith<K(==, 0), V(0)>(hash: K -> nat, flags: array<bv32>, n0: nat, keys: array<K>, vals: array<V>,
                                     ghost pos: map<K, nat>, n1: nat)
    returns (newFlags: array<bv32>, newKeys: array<K>, newVals: array<V>, ghost done: map<K, nat>)
    requires n0 <= 16 * flags.Length && keys.Length == vals.Length == n0
    requires keys as object != vals && keys as object != flags && vals as object != flags
    requires Consistent(hash, Slots(flags[..], n0), keys[..], pos) && Prime(n1) && |pos| <= n1
    modifies flags, keys, vals
    ensures fresh(newFlags) && n1 <= 16 * newFlags.Length && newKeys.Length == newVals.Length == n1
    ensures (fresh(newKeys) && fresh(newVals)) || (newKeys == keys && newVals == vals)
    ensures newKeys as object != newVals && newKeys as object != newFlags && newVals as object != newFlags
    ensures Consistent(hash, Slots(newFlags[..], n1), newKeys[..], done)
    ensures ContentsOf(newVals[..], done) == old(ContentsOf(vals[..], pos))
    ensures |Occupied(Slots(newFlags[..], n1))| == |done| == |pos|
  {
    hide *;
    ghost var slots, ks0, vs0 := Slots(flags[..], n0), keys[..], vals[..];
    PositionsInRange(hash, slots, ks0, pos);
    ghost var m := ContentsOf(vs0, pos);
    ContentsSize(vs0, pos);
    newFlags := new bv32[n1 / 16 + 1];
    SetAllEmpty(newFlags, n1);
    newKeys, newVals := keys, vals;
    if n0 < n1 {
      newKeys := Reallocate(keys, n1);
      newVals := Reallocate(vals, n1);
    }
    StartRehash(hash, slots, ks0, vs0, pos, Slots(newFlags[..], n1), newKeys[..], newVals[..]);
    done := RehashAll(hash, flags, n0, newFlags, n1, newKeys, newVals, m, pos);
    ghost var ks, vs := newKeys[..], newVals[..];
    if n0 > n1 {
      newKeys := Reallocate(newKeys, n1);
      newVals := Reallocate(newVals, n1);
    }
    assert newKeys[..] == ks[..n1] && newVals[..] == vs[..n1];
    FinishRehash(hash, m, Slots(newFlags[..], n1), ks, vs, done, newKeys[..], newVals[..]);
  }

  // ---------- searching the object ----------

  /** The loop test of kh_get and kh_put: the bucket is not empty, and is deleted or holds another key. */
  predicate KeepsLooking<K(==)>(flags: array<bv32>, ghost n: nat, keys: array<K>, i: nat, key: K)
    requires i < n <= 16 * flags.Length && keys.Length == n && Clean(Slots(flags[..], n))
    reads flags, keys
    ensures KeepsLooking(flags, n, keys, i, key) <==>
              Slots(flags[..], n)[i] == Deleted || (Slots(flags[..], n)[i] == Live && keys[i] != key)
  {
    !EmptyAt(flags, n, i) && (DeletedAt(flags, n, i) || keys[i] != key)
  }

  /** The probe loop of kh_get. */
  method FindKey<K(==)>(hash: K -> nat, flags: array<bv32>, n: nat, keys: array<K>, key: K, ghost pos: map<K, nat>)
    returns (x: nat)
    requires n <= 16 * flags.Length && keys.Length == n && Prime(n) && n >= 2
    requires Consistent(hash, Slots(flags[..], n), keys[..], pos)
    ensures x == if key in pos then pos[key] else n
  {
    ghost var slots, ks := Slots(flags[..], n), keys[..];
    ConsistentClean(hash, slots, ks, pos);
    assert |slots| == |ks| == n;
    hide *;
    var k := hash(key);
    var i := Home(k, n);
    var inc := Increment(k, n);
    var last := i;
    ghost var t := 0;
    MissedNone(slots, ks, k, key);
    while KeepsLooking(flags, n, keys, i, key)
      invariant t < n && i < n && i == Probe(k, n, t) && last == Probe(k, n, 0)
      invariant Missed(slots, ks, k, key, t)
      decreases n - t
    {
      CleanAt(slots, i);
      MissedNext(slots, ks, k, key, t);
      i := Advance(i, inc, n);
      t := t + 1;
      BackAtStart(k, n, t);
      if i == last {
        AbsentWhenWrapped(hash, slots, ks, pos, key);
        return n;
      }
    }
    CleanAt(slots, i);
    if EitherAt(flags, n, i) {
      AbsentWhenEmpty(hash, slots, ks, pos, key, t);
      x := n;
    } else {
      FoundLive(hash, slots, ks, pos, i);
      x := i;
    }
  }

  /** Where kh_put may make the key live: its own bucket, or a free one it can be reached at. */
  ghost predicate Usable<K>(hash: K -> nat, slots: seq<Slot>, pos: map<K, nat>, key: K, x: nat) {
    && x < |slots|
    && if key in pos then pos[key] == x else slots[x] != Live && Reachable(slots, hash(key), x)
  }

  /** The choice of bucket in kh_put: it prefers the last deleted bucket it passed to the empty
    * bucket that stopped it. */
  method FindSlot<K(==)>(hash: K -> nat, flags: array<bv32>, n: nat, keys: array<K>, key: K, ghost pos: map<K, nat>, ghost free: nat)
    returns (x: nat)
    requires n <= 16 * flags.Length && keys.Length == n && Prime(n) && n >= 2
    requires Consistent(hash, Slots(flags[..], n), keys[..], pos)
    requires free < n && Slots(flags[..], n)[free] == Empty
    ensures Usable(hash, Slots(flags[..], n), pos, key, x)
    ensures key !in pos ==> (Slots(flags[..], n)[x] == Deleted <==> HasTombstone(Slots(flags[..], n), hash(key)))
  {
    ghost var slots, ks := Slots(flags[..], n), keys[..];
    ConsistentClean(hash, slots, ks, pos);
    assert |slots| == |ks| == n;
    hide *;
    var k := hash(key);
    var i := Home(k, n);
    MissedNone(slots, ks, k, key);
    CleanAt(slots, i);
    if EmptyAt(flags, n, i) {
      x := i;
      UseEmpty(hash, slots, ks, pos, key, 0);
      NoTombstone(slots, k, 0);
    } else {
      var site;
      ghost var t;
      x, i, site, t := ProbePast(flags, n, keys, k, key, free);
      CleanAt(slots, i);
      if x == n {
        if EmptyAt(flags, n, i) && site != n {
          x := site;
          UseSite(hash, slots, ks, pos, key, t, site);
          TombstoneAt(slots, k, site);
        } else {
          x := i;
          if EmptyAt(flags, n, i) {
            UseEmpty(hash, slots, ks, pos, key, t);
            NoTombstone(slots, k, t);
          } else {
            UseLive(hash, slots, ks, pos, key, i);
          }
        }
      }
    }
  }

  /** The probe loop of kh_put. Since some bucket is empty it never comes back to its start, and
    * x keeps its initial value n. */
  method ProbePast<K(==)>(flags: array<bv32>, n: nat, keys: array<K>, k: nat, key: K, ghost free: nat)
    returns (x: nat, i: nat, site: nat, ghost t: nat)
    requires n <= 16 * flags.Length && keys.Length == n && Prime(n) && n >= 2 && Clean(Slots(flags[..], n))
    requires free < n && Slots(flags[..], n)[free] == Empty
    ensures x == n && t < n && i < n && i == Probe(k, n, t)
    ensures Missed(Slots(flags[..], n), keys[..], k, key, t)
    ensures Slots(flags[..], n)[i] == Empty || (Slots(flags[..], n)[i] == Live && keys[i] == key)
    ensures if site == n then NoneDeleted(Slots(flags[..], n), k, t) else DeletedOnPath(Slots(flags[..], n), k, site)
  {
    hide *;
    ghost var slots, ks := Slots(flags[..], n), keys[..];
    MissedNone(slots, ks, k, key);
    NoneDeletedNext(slots, k, 0);
    x, site, i, t := n, n, Home(k, n), 0;
    var inc := Increment(k, n);
    var last := i;
    while KeepsLooking(flags, n, keys, i, key)
      invariant t < n && i < n && i == Probe(k, n, t) && last == Probe(k, n, 0) && x == n
      invariant Missed(slots, ks, k, key, t)
      invariant if site == n then NoneDeleted(slots, k, t) else DeletedOnPath(slots, k, site)
      decreases n - t
    {
      CleanAt(slots, i);
      PassDeleted(slots, ks, k, key, t);
      NoneDeletedNext(slots, k, t);
      if DeletedAt(flags, n, i) { site := i; }
      MissedNext(slots, ks, k, key, t);
      NeverWraps(slots, ks, k, key, free, t + 1);
      i := Advance(i, inc, n);
      t := t + 1;
      if i == last {
        x := site;
        break;
      }
    }
    CleanAt(slots, i);
  }

  ghost predicate DeletedOnPath(slots: seq<Slot>, h: nat, site: nat) {
    site < |slots| && slots[site] == Deleted && Reachable(slots, h, site)
  }

  /** Some bucket of the probe path, in front of the first empty one, is deleted. */
  ghost predicate HasTombstone(slots: seq<Slot>, h: nat) {
    exists site :: DeletedOnPath(slots, h, site)
  }

  lemma TombstoneAt(slots: seq<Slot>, h: nat, site: nat)
    requires DeletedOnPath(slots, h, site)
    ensures HasTombstone(slots, h) && slots[site] == Deleted
  {
  }

  /** None of the first t buckets of the probe path is deleted. */
  ghost predicate NoneDeleted(slots: seq<Slot>, h: nat, t: nat)
    requires |slots| >= 2
  {
    forall u: nat :: u < t ==> slots[Probe(h, |slots|, u)] != Deleted
  }

  lemma NoneDeletedNext(slots: seq<Slot>, h: nat, t: nat)
    requires |slots| >= 2
    ensures NoneDeleted(slots, h, 0)
    ensures NoneDeleted(slots, h, t) && slots[Probe(h, |slots|, t)] != Deleted ==> NoneDeleted(slots, h, t + 1)
  {
    hide Probe;
  }

  lemma NoTombstone(slots: seq<Slot>, h: nat, t: nat)
    requires |slots| >= 2 && NoneDeleted(slots, h, t) && slots[Probe(h, |slots|, t)] == Empty
    ensures !HasTombstone(slots, h)
  {
    hide Probe;
  }

  lemma PassDeleted<K>(slots: seq<Slot>, keys: seq<K>, h: nat, key: K, t: nat)
    requires |slots| == |keys| >= 2 && Missed(slots, keys, h, key, t) && t < |slots|
    ensures slots[Probe(h, |slots|, t)] == Deleted ==> DeletedOnPath(slots, h, Probe(h, |slots|, t))
  {
    hide Probe, Missed;
    MissedReach(slots, keys, h, key, t);
  }

  lemma InUse<K>(hash: K -> nat, slots: seq<Slot>, keys: seq<K>, pos: map<K, nat>, key: K, x: nat)
    requires Consistent(hash, slots, keys, pos) && Usable(hash, slots, pos, key, x)
    ensures x < |slots| && slots[x] != Both
    ensures slots[x] == Live <==> key in pos
    ensures key in pos ==> pos[key] == x && keys[x] == key
    ensures forall k :: k in pos ==> pos[k] < |keys|
  {
  }

  lemma InPlace<K>(hash: K -> nat, slots: seq<Slot>, pos: map<K, nat>, key: K, x: nat)
    requires Usable(hash, slots, pos, key, x) && key !in pos
    ensures x < |slots| && slots[x] != Live && Reachable(slots, hash(key), x)
  {
  }

  /** Some bucket being empty, a probe that has missed stops before coming back to its start. */
  lemma NeverWraps<K>(slots: seq<Slot>, keys: seq<K>, h: nat, key: K, free: nat, t: nat)
    requires |slots| == |keys| >= 2 && Prime(|slots|) && free < |slots| && slots[free] == Empty
    requires 0 < t <= |slots| && Missed(slots, keys, h, key, t)
    ensures t < |slots| && Probe(h, |slots|, t) != Probe(h, |slots|, 0)
  {
    hide Prime, Probe;
    var u := ProbeCovers(h, |slots|, free);
    ProbeInjective(h, |slots|, 0, t);
  }

  lemma UseEmpty<K>(hash: K -> nat, slots: seq<Slot>, keys: seq<K>, pos: map<K, nat>, key: K, t: nat)
    requires Consistent(hash, slots, keys, pos) && |slots| >= 2 && t < |slots|
    requires Missed(slots, keys, hash(key), key, t) && slots[Probe(hash(key), |slots|, t)] == Empty
    ensures Usable(hash, slots, pos, key, Probe(hash(key), |slots|, t))
  {
    hide Probe, Missed, Locates;
    AbsentWhenEmpty(hash, slots, keys, pos, key, t);
    MissedReach(slots, keys, hash(key), key, t);
  }

  lemma UseSite<K>(hash: K -> nat, slots: seq<Slot>, keys: seq<K>, pos: map<K, nat>, key: K, t: nat, site: nat)
    requires Consistent(hash, slots, keys, pos) && |slots| >= 2 && t < |slots|
    requires Missed(slots, keys, hash(key), key, t) && slots[Probe(hash(key), |slots|, t)] == Empty
    requires DeletedOnPath(slots, hash(key), site)
    ensures Usable(hash, slots, pos, key, site)
  {
    hide Probe, Consistent, Missed, Reachable;
    AbsentWhenEmpty(hash, slots, keys, pos, key, t);
  }

  lemma UseLive<K>(hash: K -> nat, slots: seq<Slot>, keys: seq<K>, pos: map<K, nat>, key: K, i: nat)
    requires Consistent(hash, slots, keys, pos) && i < |slots| && slots[i] == Live && keys[i] == key
    ensures Usable(hash, slots, pos, key, i)
    ensures key in pos
  {
  }

  lemma ConsistentClean<K>(hash: K -> nat, slots: seq<Slot>, keys: seq<K>, pos: map<K, nat>)
    requires Consistent(hash, slots, keys, pos)
    ensures Clean(slots)
  {
  }

  lemma CleanAt(slots: seq<Slot>, i: nat)
    requires Clean(slots) && i < |slots|
    ensures slots[i] != Both
  {
  }

  // ---------- the object ----------

  class Table<K(==, 0), V(0)> {
    const hash: K -> nat
    var nBuckets: nat
    var size: nat
    var nOccupied: nat
    var upperBound: nat
    var flags: array<bv32>
    var keys: array<K>
    var vals: array<V>
    /** Where each live key is. */
    ghost var pos: map<K, nat>

    ghost predicate Shape()
      reads this
    {
      && nBuckets <= 16 * flags.Length
      && keys.Length == nBuckets == vals.Length
      && keys as object != vals && keys as object != flags && vals as object != flags
      && upperBound == UpperBound(nBuckets)
      && size == |pos|
      && nOccupied <= upperBound
      && (nBuckets != 0 ==> Listed(nBuckets))
    }

    ghost predicate Valid()
      reads this, flags, keys, vals
    {
      && Shape()
      && Consistent(hash, Slots(flags[..], nBuckets), keys[..], pos)
      && nOccupied == |Occupied(Slots(flags[..], nBuckets))|
    }

    /** The finite map the table stands for. */
    ghost function Contents(): (m: map<K, V>)
      requires Valid()
      reads this, flags, keys, vals
      ensures m.Keys == pos.Keys && |m| == size
    {
      ContentsSize(vals[..], pos);
      ContentsOf(vals[..], pos)
    }

    constructor (hash: K -> nat)
      ensures Valid() && Contents() == map[] && nBuckets == 0 && this.hash == hash
      ensures fresh(flags) && fresh(keys) && fresh(vals)
    {
      this.hash := hash;
      nBuckets, size, nOccupied, upperBound := 0, 0, 0, 0;
      flags, keys, vals := new bv32[0], new K[0], new V[0];
      pos := map[];
      new;
      assert Occupied([]) == {};
      assert Slots(flags[..], 0) == [];
    }

    /** kh_get: the bucket of a key, or n_buckets. */
    method Get(key: K) returns (x: nat)
      requires Valid()
      ensures x == if key in Contents() then pos[key] else nBuckets
      ensures nBuckets <= 16 * flags.Length && keys.Length == nBuckets == vals.Length
      ensures key in Contents() ==>
                x < nBuckets && Slots(flags[..], nBuckets)[x] == Live && keys[x] == key && vals[x] == Contents()[key]
    {
      if nBuckets == 0 { return 0; }
      ListedIsPrime(nBuckets);
      x := FindKey(hash, flags, nBuckets, keys, key, pos);
    }

    /** Everything Valid says, one level down. */
    lemma Opened()
      requires Valid()
      ensures size == |pos| <= nOccupied <= upperBound == UpperBound(nBuckets)
      ensures nBuckets == 0 ==> upperBound == 0
      ensures nBuckets != 0 ==> Listed(nBuckets) && Prime(nBuckets) && UpperBound(nBuckets) < nBuckets && nBuckets >= 3
      ensures nBuckets <= 16 * flags.Length && keys.Length == nBuckets == vals.Length
      ensures keys as object != vals && keys as object != flags && vals as object != flags
      ensures Consistent(hash, Slots(flags[..], nBuckets), keys[..], pos)
      ensures nOccupied == |Occupied(Slots(flags[..], nBuckets))|
      ensures forall k :: k in pos ==> pos[k] < nBuckets
      ensures Contents() == ContentsOf(vals[..], pos)
    {
      hide AllReachable, Occupied, Listed, Slots, Prime, PRIME_LIST, ContentsOf;
      if nBuckets != 0 { ListedIsPrime(nBuckets); }
      LiveAtMostOccupied(Slots(flags[..], nBuckets), keys[..], pos);
    }

    lemma Closed()
      requires nBuckets <= 16 * flags.Length && keys.Length == nBuckets == vals.Length
      requires keys as object != vals && keys as object != flags && vals as object != flags
      requires upperBound == UpperBound(nBuckets) && (nBuckets != 0 ==> Listed(nBuckets))
      requires Consistent(hash, Slots(flags[..], nBuckets), keys[..], pos)
      requires size == |pos| && nOccupied == |Occupied(Slots(flags[..], nBuckets))| <= upperBound
      ensures Valid() && Contents() == ContentsOf(vals[..], pos)
    {
      hide AllReachable, Occupied, Listed, Slots, Prime, PRIME_LIST, ContentsOf;
    }

    /** kh_resize: rehash into the least listed size above the request, unless the live keys would
      * not fit below its bound. The map is the same afterwards, and every tombstone is gone. */
    method Resize(request: nat) returns (ghost target: nat)
      requires Valid() && request < LAST_SIZE
      modifies this, flags, keys, vals
      ensures Valid() && Contents() == old(Contents())
      ensures (flags == old(flags) || fresh(flags)) && (keys == old(keys) || fresh(keys)) && (vals == old(vals) || fresh(vals))
      ensures IsNextSize(request, target)
      ensures size < UpperBound(target) ==> nBuckets == target && nOccupied == size
      ensures size >= UpperBound(target) ==>
                && nBuckets == old(nBuckets) && nOccupied == old(nOccupied) && pos == old(pos)
                && flags == old(flags) && keys == old(keys) && vals == old(vals)
    {
      hide Valid, Contents, Shape, Slots, Consistent, Prime, Listed, IsNextSize, PRIME_LIST, Occupied, ContentsOf, UpperBound;
      Opened();
      var n1 := NextSize(request);
      target := n1;
      if size >= UpperBound(n1) { return; }
      NextSizeFits(request, n1);
      ghost var done;
      flags, keys, vals, done := RebuildWith(hash, flags, nBuckets, keys, vals, pos, n1);
      nBuckets := n1;
      nOccupied := size;
      upperBound := UpperBound(n1);
      pos := done;
      Closed();
    }

    /** The first step of kh_put: below the last listed size, a full table is resized until there is
      * room for one more entry. */
    method MakeRoom()
      requires Valid()
      requires nOccupied < upperBound || nBuckets > 2 * size || nBuckets + 1 < LAST_SIZE
      modifies this, flags, keys, vals
      ensures Valid() && Contents() == old(Contents())
      ensures (flags == old(flags) || fresh(flags)) && (keys == old(keys) || fresh(keys)) && (vals == old(vals) || fresh(vals))
      ensures nOccupied < upperBound && size == old(size)
      ensures old(nOccupied < upperBound) ==> nBuckets == old(nBuckets) && nOccupied == old(nOccupied)
      ensures old(nOccupied >= upperBound && nBuckets > 2 * size) ==> nBuckets == old(nBuckets) && nOccupied == old(size)
      ensures old(nOccupied >= upperBound && nBuckets <= 2 * size) ==>
                IsNextSize(old(nBuckets) + 1, nBuckets) && nOccupied == old(size)
    {
      hide *;
      Opened();
      if nOccupied >= upperBound {
        ghost var was, target := nBuckets, 0;
        if nBuckets > 2 * size {
          SameSize(nBuckets, size);
          target := Resize(nBuckets - 1);
          NextSizeUnique(was - 1, was, target);
        } else {
          target := Resize(nBuckets + 1);
          Grows(was, size, target);
        }
        Opened();
      }
    }

    /** kh_put: make the key live and return its bucket, with 0 if it was live already, 1 if it
      * took an empty bucket and 2 if it took a deleted one. The value of a new key is whatever
      * its bucket holds. */
    method Put(key: K) returns (x: nat, ret: int)
      requires Valid()
      requires nOccupied < upperBound || nBuckets > 2 * size || nBuckets + 1 < LAST_SIZE
      modifies this, flags, keys, vals
      ensures Valid()
      ensures (flags == old(flags) || fresh(flags)) && (keys == old(keys) || fresh(keys)) && (vals == old(vals) || fresh(vals))
      ensures x < nBuckets <= 16 * flags.Length && keys.Length == nBuckets == vals.Length
      ensures Slots(flags[..], nBuckets)[x] == Live && keys[x] == key && key in Contents() && pos[key] == x
      ensures ret in {0, 1, 2} && (ret == 0 <==> key in old(Contents()))
      ensures Contents() == old(Contents())[key := vals[x]]
      ensures ret == 0 ==> Contents() == old(Contents())
      ensures old(nOccupied < upperBound || nBuckets > 2 * size) ==> nBuckets == old(nBuckets)
      ensures old(nOccupied >= upperBound && nBuckets <= 2 * size) ==> IsNextSize(old(nBuckets) + 1, nBuckets)
    {
      hide *;
      MakeRoom();
      x, ret := PutWithRoom(key);
    }

    /** The rest of kh_put, once there is room. */
    method PutWithRoom(key: K) returns (x: nat, ret: int)
      requires Valid() && nOccupied < upperBound
      modifies flags, keys, `size, `nOccupied, `pos
      ensures Valid()
      ensures x < nBuckets == |old(Slots(flags[..], nBuckets))| <= 16 * flags.Length && keys.Length == nBuckets == vals.Length
      ensures Slots(flags[..], nBuckets)[x] == Live && keys[x] == key && key in Contents() && pos[key] == x
      ensures ret in {0, 1, 2} && (ret == 0 <==> key in old(Contents()))
      ensures Contents() == old(Contents())[key := vals[x]]
      ensures ret == 0 ==> Contents() == old(Contents())
      ensures ret == 1 <==> old(Slots(flags[..], nBuckets))[x] == Empty
      ensures ret == 2 <==> old(Slots(flags[..], nBuckets))[x] == Deleted
      ensures ret == 2 <==> key !in old(Contents()) && old(HasTombstone(Slots(flags[..], nBuckets), hash(key)))
      ensures nOccupied == old(nOccupied) + if ret == 1 then 1 else 0
    {
      hide *;
      Opened();
      ghost var slots := Slots(flags[..], nBuckets);
      ghost var free := SomeEmpty(slots);
      x := FindSlot(hash, flags, nBuckets, keys, key, pos, free);
      InUse(hash, slots, keys[..], pos, key, x);
      ContentsPut(vals[..], pos, key, x);
      if EmptyAt(flags, nBuckets, x) {
        Place(key, x, true);
        ret := 1;
      } else if DeletedAt(flags, nBuckets, x) {
        Place(key, x, false);
        ret := 2;
      } else {
        ret := 0;
      }
    }

    /** The two branches of kh_put that write a new key into a free bucket of its path. */
    method Place(key: K, x: nat, empty: bool)
      requires Valid() && key !in pos && Usable(hash, Slots(flags[..], nBuckets), pos, key, x)
      requires nOccupied < upperBound && (empty <==> Slots(flags[..], nBuckets)[x] == Empty)
      modifies flags, keys, `size, `nOccupied, `pos
      ensures Valid() && x < nBuckets && keys[x] == key && pos == old(pos)[key := x]
      ensures Slots(flags[..], nBuckets)[x] == Live
      ensures nOccupied == old(nOccupied) + if empty then 1 else 0
      ensures Contents() == ContentsOf(vals[..], pos)
    {
      hide *;
      Opened();
      ghost var slots, ks := Slots(flags[..], nBuckets), keys[..];
      InPlace(hash, slots, pos, key, x);
      Insert(hash, slots, ks, pos, key, x);
      keys[x] := key;
      SetLive(flags, nBuckets, x);
      size := size + 1;
      if empty { nOccupied := nOccupied + 1; }
      pos := pos[key := x];
      assert keys[..] == ks[x := key];
      Closed();
    }

    /** kh_value as an lvalue: set the value of a live bucket. */
    method SetValue(x: nat, v: V)
      requires Valid() && x < nBuckets && Slots(flags[..], nBuckets)[x] == Live
      modifies vals
      ensures Valid() && old(keys[x]) in old(Contents()) && Contents() == old(Contents())[old(keys[x]) := v]
    {
      hide *;
      Opened();
      FoundLive(hash, Slots(flags[..], nBuckets), keys[..], pos, x);
      ContentsSet(vals[..], pos, keys[x], x, v, keys[..], Slots(flags[..], nBuckets), hash);
      ghost var vs := vals[..];
      vals[x] := v;
      assert vals[..] == vs[x := v];
      Closed();
    }

    /** kh_del: forget the entry of a live bucket; anything else is left alone. */
    method Delete(x: nat)
      requires Valid() && x <= nBuckets
      modifies flags, `size, `pos
      ensures Valid()
      ensures if x < nBuckets && old(Slots(flags[..], nBuckets))[x] == Live
              then old(keys[x]) in old(Contents()) && Contents() == old(Contents()) - {old(keys[x])}
              else Contents() == old(Contents()) && pos == old(pos)
    {
      hide *;
      Opened();
      if x != nBuckets && !EitherAt(flags, nBuckets, x) {
        Remove(hash, Slots(flags[..], nBuckets), keys[..], pos, x);
        ContentsDrop(vals[..], pos, keys[x]);
        SetDeleted(flags, nBuckets, x);
        size := size - 1;
        pos := pos - {keys[x]};
        Closed();
      }
    }

    /** kh_clear: forget every entry and keep the buckets. */
    method Clear()
      requires Valid()
      modifies flags, `size, `nOccupied, `pos
      ensures Valid() && Contents() == map[] && size == nOccupied == 0
      ensures forall i :: 0 <= i < nBuckets ==> Slots(flags[..], nBuckets)[i] == Empty
    {
      hide *;
      Opened();
      if nBuckets != 0 {
        SetAllEmpty(flags, nBuckets);
        size, nOccupied := 0, 0;
      }
      pos := map[];
      NothingLeft(hash, Slots(flags[..], nBuckets), keys[..], vals[..]);
      Closed();
    }
  }

  lemma NothingLeft<K, V>(hash: K -> nat, slots: seq<Slot>, keys: seq<K>, vals: seq<V>)
    requires |slots| == |keys| == |vals| && forall i :: 0 <= i < |slots| ==> slots[i] == Empty
    ensures Consistent(hash, slots, keys, map[]) && Occupied(slots) == {} && |Occupied(slots)| == 0
    ensures ContentsOf<K, V>(vals, map[]) == map[]
  {
    hide Reachable;
    assert Occupied(slots) == {};
  }

  lemma ContentsSet<K, V>(vals: seq<V>, pos: map<K, nat>, key: K, x: nat, v: V, keys: seq<K>, slots: seq<Slot>, hash: K -> nat)
    requires Consistent(hash, slots, keys, pos) && |vals| == |keys| && key in pos && pos[key] == x && x < |vals|
    ensures key in ContentsOf(vals, pos)
    ensures ContentsOf(vals[x := v], pos) == ContentsOf(vals, pos)[key := v]
  {
    hide AllReachable;
  }

  lemma ContentsDrop<K, V>(vals: seq<V>, pos: map<K, nat>, key: K)
    requires (forall k :: k in pos ==> pos[k] < |vals|) && key in pos
    ensures key in ContentsOf(vals, pos)
    ensures ContentsOf(vals, pos - {key}) == ContentsOf(vals, pos) - {key}
  {
  }

  lemma ContentsPut<K, V>(vals: seq<V>, pos: map<K, nat>, key: K, x: nat)
    requires (forall k :: k in pos ==> pos[k] < |vals|) && x < |vals|
    ensures ContentsOf(vals, pos[key := x]) == ContentsOf(vals, pos)[key := vals[x]]
    ensures key in pos && pos[key] == x ==> ContentsOf(vals, pos) == ContentsOf(vals, pos)[key := vals[x]]
    ensures key in ContentsOf(vals, pos) <==> key in pos
  {
  }

  lemma ContentsSize<K, V>(vals: seq<V>, pos: map<K, nat>)
    requires forall k :: k in pos ==> pos[k] < |vals|
    ensures ContentsOf(vals, pos).Keys == pos.Keys && |ContentsOf(vals, pos)| == |pos|
  {
    assert |ContentsOf(vals, pos)| == |ContentsOf(vals, pos).Keys| && |pos| == |pos.Keys|;
  }
}
