/**
 Tables with other values under the same keys: every operation on tables goes by keys
 alone, so it commutes with mapping the values.
 */
module MappedTables {
  import opened Common
  import opened Tables

  function MapPair<V, W>(f: V -> W, kv: KV<V>): KV<W>
  {
    KV(kv.key, f(kv.value))
  }

  function MapPairs<V, W>(f: V -> W, kvs: seq<KV<V>>): (r: seq<KV<W>>)
    ensures |r| == |kvs| && forall i :: 0 <= i < |kvs| ==> r[i] == MapPair(f, kvs[i])
  {
    seq(|kvs|, i requires 0 <= i < |kvs| => MapPair(f, kvs[i]))
  }

  function MapTable<V, W>(f: V -> W, t: Table<V>): (r: Table<W>)
    ensures |r| == |t| && forall b :: 0 <= b < |t| ==> r[b] == Chain(MapPairs(f, t[b].kvs))
  {
    seq(|t|, b requires 0 <= b < |t| => Chain(MapPairs(f, t[b].kvs)))
  }

  lemma {:induction false} MapFindIn<V, W>(f: V -> W, kvs: seq<KV<V>>, key: Key)
    ensures FindIn(MapPairs(f, kvs), key)
         == match FindIn(kvs, key) case None => None case Some(kv) => Some(MapPair(f, kv))
    ensures IndexIn(MapPairs(f, kvs), key) == IndexIn(kvs, key)
  {
    if kvs != [] {
      assert MapPairs(f, kvs)[1..] == MapPairs(f, kvs[1..]);
      MapFindIn(f, kvs[1..], key);
    }
  }

  lemma {:induction false} MapWithout<V, W>(f: V -> W, kvs: seq<KV<V>>, key: Key)
    ensures MapPairs(f, Without(kvs, key)) == Without(MapPairs(f, kvs), key)
  {
    MapFindIn(f, kvs, key);
    hide FindIn, IndexIn, MapPair;
    var i, l, r := IndexIn(kvs, key), MapPairs(f, Without(kvs, key)), Without(MapPairs(f, kvs), key);
    forall j | 0 <= j < |l|
      ensures l[j] == r[j]
    {
    }
  }

  lemma MapCons<V, W>(f: V -> W, kv: KV<V>, kvs: seq<KV<V>>)
    ensures MapPairs(f, [kv] + kvs) == [MapPair(f, kv)] + MapPairs(f, kvs)
  {
  }

  // Lookups see the mapped pair.
  lemma MapFind<V, W>(f: V -> W, t: Table<V>, key: Key)
    requires |t| > 0
    ensures Find(MapTable(f, t), key)
         == match Find(t, key) case None => None case Some(kv) => Some(MapPair(f, kv))
  {
    MapFindIn(f, t[BucketNum(t, key)].kvs, key);
  }

  lemma MapInsert<V, W>(f: V -> W, t: Table<V>, kv: KV<V>)
    requires |t| > 0
    ensures MapTable(f, InsertInto(t, kv)) == InsertInto(MapTable(f, t), MapPair(f, kv))
  {
    var b := BucketNum(t, kv.key);
    MapWithout(f, t[b].kvs, kv.key);
    hide Without, MapPair, BucketNum, MapPairs;
    MapCons(f, kv, Without(t[b].kvs, kv.key));
    var l, r := MapTable(f, InsertInto(t, kv)), InsertInto(MapTable(f, t), MapPair(f, kv));
    forall c | 0 <= c < |t|
      ensures l[c] == r[c]
    {
    }
  }

  lemma {:induction false} MapAllPairs<V, W>(f: V -> W, t: Table<V>)
    ensures AllPairs(MapTable(f, t)) == MapPairs(f, AllPairs(t))
    ensures Size(MapTable(f, t)) == Size(t)
  {
    if t != [] {
      assert Init(MapTable(f, t)) == MapTable(f, Init(t));
      MapAllPairs(f, Init(t));
      AllPairsLast(t);
      AllPairsLast(MapTable(f, t));
      hide AllPairs;
      assert MapPairs(f, AllPairs(Init(t)) + Last(t).kvs) == MapPairs(f, AllPairs(Init(t))) + MapPairs(f, Last(t).kvs);
    }
  }

  lemma {:induction false} MapInsertAll<V, W>(f: V -> W, t: Table<V>, kvs: seq<KV<V>>)
    requires |t| > 0
    ensures MapTable(f, InsertAll(t, kvs)) == InsertAll(MapTable(f, t), MapPairs(f, kvs))
  {
    hide InsertInto, MapPair;
    if kvs != [] {
      MapInsertAll(f, t, Init(kvs));
      MapInsert(f, InsertAll(t, Init(kvs)), Last(kvs));
      assert Init(MapPairs(f, kvs)) == MapPairs(f, Init(kvs));
    }
  }

  // So the mapped table is resized in step.
  lemma MapResized<V, W>(f: V -> W, t: Table<V>)
    requires |t| > 0
    ensures MapTable(f, Resized(t)) == Resized(MapTable(f, t))
  {
    MapAllPairs(f, t);
    var empty := EmptyTable<V>(9 * |t|);
    MapInsertAll(f, empty, AllPairs(t));
    hide AllPairs, InsertAll, Size;
    assert MapTable(f, empty) == EmptyTable<W>(9 * |t|);
  }

  // Two mappings that agree on every value but the one of a key.
  lemma MapSet<V, W>(f: V -> W, g: V -> W, t: Table<V>, key: Key)
    requires WellFormed(t) && Find(t, key).Some?
    requires forall kv :: kv in AllPairs(t) && kv.key != key ==> f(kv.value) == g(kv.value)
    ensures Find(MapTable(f, t), key).Some?
    ensures MapTable(g, t) == SetIn(MapTable(f, t), key, g(Find(t, key).value.value))
  {
    MapFind(f, t, key);
    var b := BucketNum(t, key);
    MapFindIn(f, t[b].kvs, key);
    var i := IndexIn(t[b].kvs, key);
    hide AllPairs, FindIn, IndexIn;
    forall c | 0 <= c < |t|
      ensures MapTable(g, t)[c].kvs == SetIn(MapTable(f, t), key, g(Find(t, key).value.value))[c].kvs
    {
      forall j | 0 <= j < |t[c].kvs| && !(c == b && j == i)
        ensures f(t[c].kvs[j].value) == g(t[c].kvs[j].value)
      {
        OtherKey(t, key, c, j);
      }
    }
  }

  // The pair of a key is the only one with the key.
  lemma OtherKey<V>(t: Table<V>, key: Key, c: nat, j: nat)
    requires WellFormed(t) && Find(t, key).Some? && c < |t| && j < |t[c].kvs|
    requires !(c == BucketNum(t, key) && j == IndexIn(t[c].kvs, key))
    ensures t[c].kvs[j].key != key && t[c].kvs[j] in AllPairs(t)
  {
    AllPairsMember(t, t[c].kvs[j]);
    assert InBucket(t[c].kvs, c, |t|) && DistinctKeys(t[c].kvs);
    hide AllPairs, FindIn;
  }

  // Mappings that agree on the values of the table.
  lemma MapSame<V, W>(f: V -> W, g: V -> W, t: Table<V>)
    requires forall kv :: kv in AllPairs(t) ==> f(kv.value) == g(kv.value)
    ensures MapTable(f, t) == MapTable(g, t)
  {
    forall b, j | 0 <= b < |t| && 0 <= j < |t[b].kvs|
      ensures f(t[b].kvs[j].value) == g(t[b].kvs[j].value)
    {
      AllPairsMember(t, t[b].kvs[j]);
    }
    hide AllPairs;
    assert forall b :: 0 <= b < |t| ==> MapTable(f, t)[b].kvs == MapTable(g, t)[b].kvs;
  }
}
