/** Whole runs: any sequence of calls makes the table behave as a finite map. */
module KhashRuns {
  import opened Options
  import opened Khash
  import opened KhashTable

  datatype Call<K, V> = Store(key: K, value: V) | Find(key: K) | Erase(key: K) | Reset | Rebuild(request: nat)

  /** The map after a sequence of calls, and what each Find among them returned. */
  datatype Trace<K, V> = Trace(contents: map<K, V>, found: seq<Option<V>>)

  function Run<K, V>(calls: seq<Call<K, V>>, start: map<K, V>): Trace<K, V> {
    if calls == [] then Trace(start, []) else After(calls[|calls| - 1], Run(calls[..|calls| - 1], start))
  }

  function After<K, V>(call: Call<K, V>, t: Trace<K, V>): Trace<K, V> {
    match call
    case Store(k, v) => t.(contents := t.contents[k := v])
    case Find(k) => t.(found := t.found + [if k in t.contents then Some(t.contents[k]) else None])
    case Erase(k) => t.(contents := t.contents - {k})
    case Reset => t.(contents := map[])
    case Rebuild(_) => t
  }

  lemma RunNone<K, V>(calls: seq<Call<K, V>>, start: map<K, V>)
    ensures Run(calls[..0], start) == Trace(start, [])
  {
  }

  lemma RunOne<K, V>(calls: seq<Call<K, V>>, done: nat, start: map<K, V>)
    requires done < |calls|
    ensures Run(calls[..done + 1], start) == After(calls[done], Run(calls[..done], start))
  {
    assert calls[..done + 1][..done] == calls[..done];
  }

  /** A call that settles what is stored for a key. */
  predicate Settles<K(==), V>(c: Call<K, V>, k: K) {
    c.Reset? || (c.Store? && c.key == k) || (c.Erase? && c.key == k)
  }

  /** After a run a key has the value of its last store, unless it has been erased or everything forgotten
    * since; a key that no call speaks of is as it was. */
  lemma {:induction false} LastCallDecides<K, V>(calls: seq<Call<K, V>>, start: map<K, V>, k: K)
    ensures var m := Run(calls, start).contents;
      && ((forall i :: 0 <= i < |calls| ==> !Settles(calls[i], k)) ==> (k in m <==> k in start) && (k in m ==> m[k] == start[k]))
      && (forall j :: 0 <= j < |calls| && Settles(calls[j], k) && (forall i :: j < i < |calls| ==> !Settles(calls[i], k)) ==>
            (k in m <==> calls[j].Store?) && (k in m ==> m[k] == calls[j].value))
    decreases |calls|
  {
    if calls != [] {
      var rest, c := calls[..|calls| - 1], calls[|calls| - 1];
      LastCallDecides(rest, start, k);
      var m := Run(calls, start).contents;
      forall j | 0 <= j < |calls| && Settles(calls[j], k) && (forall i :: j < i < |calls| ==> !Settles(calls[i], k))
        ensures (k in m <==> calls[j].Store?) && (k in m ==> m[k] == calls[j].value)
      {
        if j < |rest| { assert rest[j] == calls[j] && !Settles(calls[|rest|], k); }
      }
    }
  }

  function Finds<K, V>(calls: seq<Call<K, V>>): nat {
    if calls == [] then 0 else Finds(calls[..|calls| - 1]) + if calls[|calls| - 1].Find? then 1 else 0
  }

  /** Every Find is answered, in order, with what the calls before it have left. */
  lemma {:induction false} FindsAreAnswered<K, V>(calls: seq<Call<K, V>>, start: map<K, V>, j: nat)
    requires j < |calls|
    ensures |Run(calls, start).found| == Finds(calls)
    ensures calls[j].Find? ==>
              var m, f := Run(calls[..j], start).contents, Finds(calls[..j]);
              f < Finds(calls) && Run(calls, start).found[f] == if calls[j].key in m then Some(m[calls[j].key]) else None
    decreases |calls|
  {
    var n := |calls| - 1;
    RunOne(calls, n, start);
    assert calls[..n + 1] == calls;
    if n == 0 {
      RunNone(calls, start);
    } else {
      FindsAreAnswered(calls[..n], start, if j < n then j else 0);
      if j < n { assert calls[..n][..j] == calls[..j]; }
    }
  }

  /** Replays calls on a table. It stops early only in front of a Store, when a table of the last
    * listed size would have to grow. */
  method Replay<K(==, 0), V(0)>(table: Table<K, V>, calls: seq<Call<K, V>>) returns (done: nat, found: seq<Option<V>>)
    requires table.Valid()
    requires forall c :: c in calls && c.Rebuild? ==> c.request < LAST_SIZE
    modifies table, table.flags, table.keys, table.vals
    ensures table.Valid() && done <= |calls|
    ensures Trace(table.Contents(), found) == Run(calls[..done], old(table.Contents()))
    ensures done < |calls| ==>
              && calls[done].Store? && table.nBuckets + 1 >= LAST_SIZE
              && table.nOccupied >= table.upperBound && table.nBuckets <= 2 * table.size
  {
    hide *;
    ghost var start := table.Contents();
    RunNone(calls, start);
    done, found := 0, [];
    while done < |calls|
      invariant table.Valid() && done <= |calls|
      invariant (table.flags == old(table.flags) || fresh(table.flags)) && (table.keys == old(table.keys) || fresh(table.keys))
      invariant table.vals == old(table.vals) || fresh(table.vals)
      invariant Trace(table.Contents(), found) == Run(calls[..done], start)
    {
      RunOne(calls, done, start);
      var c := calls[done];
      if c.Store? && table.nOccupied >= table.upperBound && table.nBuckets <= 2 * table.size && table.nBuckets + 1 >= LAST_SIZE {
        return;
      }
      found := Perform(table, c, found);
      done := done + 1;
    }
  }

  /** One call, with the answer of a Find appended. */
  method Perform<K(==, 0), V(0)>(table: Table<K, V>, c: Call<K, V>, found0: seq<Option<V>>) returns (found: seq<Option<V>>)
    requires table.Valid() && (c.Rebuild? ==> c.request < LAST_SIZE)
    requires c.Store? ==> table.nOccupied < table.upperBound || table.nBuckets > 2 * table.size || table.nBuckets + 1 < LAST_SIZE
    modifies table, table.flags, table.keys, table.vals
    ensures table.Valid()
    ensures (table.flags == old(table.flags) || fresh(table.flags)) && (table.keys == old(table.keys) || fresh(table.keys))
    ensures table.vals == old(table.vals) || fresh(table.vals)
    ensures Trace(table.Contents(), found) == After(c, Trace(old(table.Contents()), found0))
  {
    hide Table.Valid, Table.Contents, Run;
    found := found0;
    match c {
      case Store(k, v) => StoreEntry(table, k, v);
      case Find(k) =>
        var r := FindEntry(table, k);
        found := found + [r];
      case Erase(k) => EraseEntry(table, k);
      case Reset => table.Clear();
      case Rebuild(n) => var _ := table.Resize(n);
    }
  }

  /** Put followed by setting the value, as a caller of a map does. */
  method StoreEntry<K(==, 0), V(0)>(table: Table<K, V>, key: K, value: V)
    requires table.Valid()
    requires table.nOccupied < table.upperBound || table.nBuckets > 2 * table.size || table.nBuckets + 1 < LAST_SIZE
    modifies table, table.flags, table.keys, table.vals
    ensures table.Valid()
    ensures (table.flags == old(table.flags) || fresh(table.flags)) && (table.keys == old(table.keys) || fresh(table.keys))
    ensures table.vals == old(table.vals) || fresh(table.vals)
    ensures table.Contents() == old(table.Contents())[key := value]
  {
    hide *;
    ghost var m := table.Contents();
    var x, _ := table.Put(key);
    assert m[key := table.vals[x]][key := value] == m[key := value];
    table.SetValue(x, value);
  }

  method FindEntry<K(==, 0), V(0)>(table: Table<K, V>, key: K) returns (r: Option<V>)
    requires table.Valid()
    ensures r == if key in table.Contents() then Some(table.Contents()[key]) else None
  {
    var x := table.Get(key);
    if x == table.nBuckets { r := None; } else { r := Some(table.vals[x]); }
  }

  /** Get followed by deleting the bucket found. */
  method EraseEntry<K(==, 0), V(0)>(table: Table<K, V>, key: K)
    requires table.Valid()
    modifies table.flags, table`size, table`pos
    ensures table.Valid() && table.Contents() == old(table.Contents()) - {key}
  {
    hide *;
    ghost var m := table.Contents();
    assert key !in m ==> m - {key} == m;
    var x := table.Get(key);
    table.Delete(x);
  }
}
