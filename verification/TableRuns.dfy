/**
 Whole runs of hash table operations: from an empty table, every sequence of
 insertions, lookups and removals gives the answers of a map.
 */
module TableRuns {
  import opened Common
  import opened Tables

  datatype Op<+V> = Insert(kv: KV<V>) | Lookup(key: Key) | Remove(key: Key)
  {
    function On(): Key {
      if Insert? then kv.key else key
    }
  }

  // What the three operations of class HashTable do to its table.
  function TableAfter<V>(t: Table<V>, op: Op<V>): Table<V>
    requires |t| > 0
  {
    match op
    case Insert(kv) => InsertInto(Resized(t), kv)
    case Lookup(_) => t
    case Remove(key) => RemoveFrom(t, key)
  }

  // Every operation returns the pair that was there before, if any.
  function TableRun<V>(t: Table<V>, ops: seq<Op<V>>): (r: (Table<V>, seq<Option<KV<V>>>))
    requires |t| > 0
    ensures |r.0| > 0
  {
    if ops == [] then (t, [])
    else
      var (before, answers) := TableRun(t, Init(ops));
      (TableAfter(before, Last(ops)), answers + [Find(before, Last(ops).On())])
  }

  function MapAfter<V>(m: map<Key, V>, op: Op<V>): map<Key, V>
  {
    match op
    case Insert(kv) => m[kv.key := kv.value]
    case Lookup(_) => m
    case Remove(key) => m - {key}
  }

  function MapLookup<V>(m: map<Key, V>, key: Key): Option<KV<V>>
  {
    if key in m then Some(KV(key, m[key])) else None
  }

  function MapRun<V>(ops: seq<Op<V>>): (map<Key, V>, seq<Option<KV<V>>>)
  {
    if ops == [] then (map[], [])
    else
      var (before, answers) := MapRun(Init(ops));
      (MapAfter(before, Last(ops)), answers + [MapLookup(before, Last(ops).On())])
  }

  // The table holds exactly the pairs of the map, and is not overfull.
  ghost predicate Holds<V(!new)>(t: Table<V>, m: map<Key, V>)
  {
    && WellFormed(t) && Size(t) == |m| && Size(t) <= 3 * |t|
    && forall k: Key :: Find(t, k) == MapLookup(m, k)
  }

  lemma InsertCount<V>(m: map<Key, V>, kv: KV<V>)
    ensures |m[kv.key := kv.value]| == |m| + if kv.key in m then 0 else 1
  {
    var m' := m[kv.key := kv.value];
    assert m'.Keys == m.Keys + {kv.key};
    assert |m'.Keys| == |m'| && |m.Keys| == |m|;
  }

  lemma RemoveCount<V>(m: map<Key, V>, key: Key)
    ensures |m - {key}| == |m| - if key in m then 1 else 0
  {
    var m' := m - {key};
    assert m'.Keys == m.Keys - {key};
    assert |m'.Keys| == |m'| && |m.Keys| == |m|;
  }

  lemma StepHolds<V(!new)>(t: Table<V>, m: map<Key, V>, op: Op<V>)
    requires Holds(t, m)
    ensures Holds(TableAfter(t, op), MapAfter(m, op))
  {
    hide InsertInto, RemoveFrom, Resized, Size, InsertAll, AllPairs, FindIn;
    match op
    case Insert(kv) =>
      var r := Resized(t);
      ResizedSame(t);
      InsertWellFormed(r, kv);
      InsertSize(r, kv);
      InsertCount(m, kv);
      forall k: Key
        ensures Find(InsertInto(r, kv), k) == MapLookup(MapAfter(m, op), k)
      {
        InsertFind(r, kv, k);
      }
    case Lookup(_) =>
    case Remove(key) =>
      RemoveWellFormed(t, key);
      RemoveSize(t, key);
      RemoveCount(m, key);
      forall k: Key
        ensures Find(RemoveFrom(t, key), k) == MapLookup(MapAfter(m, op), k)
      {
        RemoveFind(t, key, k);
      }
  }

  // A table of n buckets answers like a map, whatever the operations and however
  // often it is resized on the way.
  lemma {:induction false} RunRefinesMap<V(!new)>(n: nat, ops: seq<Op<V>>)
    requires n > 0
    ensures Holds(TableRun(EmptyTable<V>(n), ops).0, MapRun(ops).0)
    ensures TableRun(EmptyTable<V>(n), ops).1 == MapRun(ops).1
  {
    if ops == [] {
      EmptySize<V>(n);
      EmptyFinds<V>(n);
    } else {
      RunRefinesMap(n, Init(ops));
      StepHolds(TableRun(EmptyTable<V>(n), Init(ops)).0, MapRun(Init(ops)).0, Last(ops));
    }
  }

  lemma EmptyFinds<V(!new)>(n: nat)
    requires n > 0
    ensures forall k: Key :: Find(EmptyTable<V>(n), k) == None
  {
  }

  // ----- how often a table is resized -----

  // Every operation adds at most one pair, and as long as there are fewer than 3 pairs
  // per bucket no operation resizes the table.
  lemma {:induction false} NoResizeYet<V(!new)>(t: Table<V>, ops: seq<Op<V>>)
    requires WellFormed(t) && Size(t) + |ops| <= 3 * |t|
    ensures var now := TableRun(t, ops).0;
            |now| == |t| && WellFormed(now) && Size(now) <= Size(t) + |ops|
  {
    hide InsertInto, RemoveFrom, Size, AllPairs, Find, WellFormed;
    if ops != [] {
      NoResizeYet(t, Init(ops));
      var before := TableRun(t, Init(ops)).0;
      match Last(ops)
      case Insert(kv) =>
        InsertWellFormed(before, kv);
        InsertSize(before, kv);
      case Lookup(_) =>
      case Remove(key) =>
        RemoveWellFormed(before, key);
        RemoveSize(before, key);
    }
  }

  // After a resize of n buckets, the next 24 * n operations, whatever they are, leave
  // the number of buckets alone.
  lemma ResizeLeavesRoom<V(!new)>(t: Table<V>, ops: seq<Op<V>>)
    requires WellFormed(t) && Size(t) <= 3 * |t| && Resized(t) != t && |ops| <= 24 * |t|
    ensures |TableRun(Resized(t), ops).0| == 9 * |t|
  {
    ResizedSame(t);
    NoResizeYet(Resized(t), ops);
  }

  // Insertions of the given pairs.
  function Insertions<V>(kvs: seq<KV<V>>): (ops: seq<Op<V>>)
    ensures |ops| == |kvs| && forall i :: 0 <= i < |ops| ==> ops[i] == Insert(kvs[i])
  {
    seq(|kvs|, i requires 0 <= i < |kvs| => Insert(kvs[i]))
  }

  // The keys are new to the table and differ from each other.
  ghost predicate AllNew<V>(t: Table<V>, kvs: seq<KV<V>>)
    requires |t| > 0
  {
    DistinctKeys(kvs) && forall i :: 0 <= i < |kvs| ==> Find(t, kvs[i].key) == None
  }

  lemma {:induction false} InsertionsFill<V(!new)>(t: Table<V>, kvs: seq<KV<V>>, k: Key)
    requires WellFormed(t) && AllNew(t, kvs) && Size(t) + |kvs| <= 3 * |t|
    ensures var now := TableRun(t, Insertions(kvs)).0;
            && |now| == |t| && WellFormed(now) && Size(now) == Size(t) + |kvs|
            && (Find(t, k) == None && (forall kv :: kv in kvs ==> kv.key != k) ==> Find(now, k) == None)
  {
    hide InsertInto, Size, AllPairs, Find, WellFormed;
    NoResizeYet(t, Insertions(kvs));
    if kvs != [] {
      var last, before := Last(kvs), Init(kvs);
      assert Init(Insertions(kvs)) == Insertions(before);
      LastIsNew(kvs);
      InsertionsFill(t, before, k);
      InsertionsFill(t, before, last.key);
      NoResizeYet(t, Insertions(before));
      var r := TableRun(t, Insertions(before)).0;
      InsertWellFormed(r, last);
      InsertSize(r, last);
      InsertFind(r, last, k);
      assert forall kv :: kv in before ==> kv in kvs;
    }
  }

  // And no sooner nor later is the table resized again: of insertions of new keys the
  // one after the first 24 * n does it.
  lemma NextResize<V(!new)>(t: Table<V>, kvs: seq<KV<V>>, op: Op<V>)
    requires WellFormed(t) && Size(t) <= 3 * |t| && Resized(t) != t
    requires AllNew(Resized(t), kvs) && |kvs| == 24 * |t| && op.Insert?
    ensures |TableRun(Resized(t), Insertions(kvs) + [op]).0| == 81 * |t|
  {
    hide InsertInto, Size, AllPairs, Find, WellFormed, InsertAll;
    ResizedSame(t);
    InsertionsFill(Resized(t), kvs, 0);
    assert Init(Insertions(kvs) + [op]) == Insertions(kvs);
  }
}
