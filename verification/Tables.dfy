/**
 The chained hash table as a value: what the table in memory (hw1/HashTable.c)
 represents and what the tables on disk are copies of.
 */
module Tables {
  import opened Common

  // ----- one chain -----

  // The first pair with the given key, as FindKey scans for it.
  function FindIn<V>(kvs: seq<KV<V>>, key: Key): (r: Option<KV<V>>)
    ensures r.Some? ==> r.value.key == key && r.value in kvs
    ensures r.None? ==> forall kv :: kv in kvs ==> kv.key != key
  {
    if kvs == [] then None
    else if kvs[0].key == key then Some(kvs[0])
    else FindIn(kvs[1..], key)
  }

  ghost predicate DistinctKeys<V>(kvs: seq<KV<V>>)
  {
    forall i, j :: 0 <= i < j < |kvs| ==> kvs[i].key != kvs[j].key
  }

  lemma {:induction false} FindInIsMember<V>(kvs: seq<KV<V>>, kv: KV<V>)
    requires DistinctKeys(kvs) && kv in kvs
    ensures FindIn(kvs, kv.key) == Some(kv)
  {
    if kvs[0] == kv {
    } else {
      var i :| 0 <= i < |kvs| && kvs[i] == kv;
      assert kvs[1..][i - 1] == kv;
      FindInIsMember(kvs[1..], kv);
    }
  }

  // ----- the table -----

  // Every pair sits in the bucket its key maps to, and no key occurs twice there.
  ghost predicate WellFormed<V>(t: Table<V>)
  {
    && |t| > 0
    && forall b :: 0 <= b < |t| ==> DistinctKeys(t[b].kvs) && InBucket(t[b].kvs, b, |t|)
  }

  ghost predicate InBucket<V>(kvs: seq<KV<V>>, b: nat, n: nat)
    requires n > 0
  {
    forall j :: 0 <= j < |kvs| ==> kvs[j].key % n == b
  }

  // HashKeyToBucketNum.
  function BucketNum<V>(t: Table<V>, key: Key): (b: nat)
    requires |t| > 0
    ensures b < |t|
  {
    key % |t|
  }

  function Find<V>(t: Table<V>, key: Key): Option<KV<V>>
    requires |t| > 0
  {
    FindIn(t[BucketNum(t, key)].kvs, key)
  }

  lemma FoundKey<V>(t: Table<V>, key: Key)
    requires |t| > 0
    ensures Find(t, key).Some? ==> Find(t, key).value.key == key
  {
  }

  // All pairs, bucket by bucket, in the order an iterator visits them.
  function AllPairs<V>(t: Table<V>): seq<KV<V>>
  {
    if t == [] then [] else AllPairs(Init(t)) + Last(t).kvs
  }

  lemma {:induction false} AllPairsMember<V>(t: Table<V>, kv: KV<V>)
    ensures kv in AllPairs(t) <==> exists b :: 0 <= b < |t| && kv in t[b].kvs
  {
    if t != [] {
      AllPairsMember(Init(t), kv);
      if exists b :: 0 <= b < |t| && kv in t[b].kvs {
        var b :| 0 <= b < |t| && kv in t[b].kvs;
        assert b < |t| - 1 ==> kv in Init(t)[b].kvs;
      }
    }
  }

  // An iterator over a well-formed table visits exactly the pairs that can be found.
  lemma AllPairsAreFound<V>(t: Table<V>, kv: KV<V>)
    requires WellFormed(t)
    ensures kv in AllPairs(t) <==> Find(t, kv.key) == Some(kv)
  {
    AllPairsMember(t, kv);
    var n := BucketNum(t, kv.key);
    if kv in AllPairs(t) {
      var b :| 0 <= b < |t| && kv in t[b].kvs;
      var j :| 0 <= j < |t[b].kvs| && t[b].kvs[j] == kv;
      assert b == n;
      FindInIsMember(t[n].kvs, kv);
    }
  }

  lemma MemberFound<V>(t: Table<V>, b: nat, j: nat)
    requires WellFormed(t) && b < |t| && j < |t[b].kvs|
    ensures Find(t, t[b].kvs[j].key) == Some(t[b].kvs[j])
  {
    var kv := t[b].kvs[j];
    assert kv in t[b].kvs && InBucket(t[b].kvs, b, |t|) && DistinctKeys(t[b].kvs);
    FindInIsMember(t[b].kvs, kv);
  }

  lemma {:induction false} AllPairsDistinct<V>(t: Table<V>, n: nat)
    requires n > 0 && |t| <= n
    requires forall b :: 0 <= b < |t| ==> DistinctKeys(t[b].kvs) && InBucket(t[b].kvs, b, n)
    ensures DistinctKeys(AllPairs(t))
    ensures forall i :: 0 <= i < |AllPairs(t)| ==> AllPairs(t)[i].key % n < |t|
  {
    if t != [] {
      AllPairsDistinct(Init(t), n);
      assert DistinctKeys(t[|t| - 1].kvs) && InBucket(t[|t| - 1].kvs, |t| - 1, n);
      var k := |AllPairs(Init(t))|;
      forall i, j | 0 <= i < j < |AllPairs(t)|
        ensures AllPairs(t)[i].key != AllPairs(t)[j].key
      {
        if j >= k {
          assert AllPairs(t)[j] == Last(t).kvs[j - k];
          assert i >= k ==> AllPairs(t)[i] == Last(t).kvs[i - k];
        }
      }
    }
  }

  // ----- updates, as the table in memory makes them -----

  // The place of the first pair with the key, or the length of the chain.
  function IndexIn<V>(kvs: seq<KV<V>>, key: Key): (i: nat)
    ensures i <= |kvs|
    ensures FindIn(kvs, key) == if i < |kvs| then Some(kvs[i]) else None
    ensures forall j :: 0 <= j < i ==> kvs[j].key != key
  {
    if kvs == [] || kvs[0].key == key then 0 else 1 + IndexIn(kvs[1..], key)
  }

  // The chain after FindKey has removed the pair with the key.
  function Without<V>(kvs: seq<KV<V>>, key: Key): (r: seq<KV<V>>)
    ensures |r| == |kvs| - if FindIn(kvs, key).Some? then 1 else 0
  {
    var i := IndexIn(kvs, key);
    if i < |kvs| then kvs[..i] + kvs[i + 1..] else kvs
  }

  lemma WithoutTail<V>(kvs: seq<KV<V>>, key: Key)
    requires kvs != [] && kvs[0].key != key
    ensures Without(kvs, key) == [kvs[0]] + Without(kvs[1..], key)
  {
    hide FindIn;
    var i := IndexIn(kvs[1..], key);
    assert i < |kvs[1..]| ==> kvs[..1 + i] + kvs[1 + i + 1..] == [kvs[0]] + (kvs[1..][..i] + kvs[1..][i + 1..]);
  }

  lemma {:induction false} FindInWithout<V>(kvs: seq<KV<V>>, key: Key, k: Key)
    requires DistinctKeys(kvs)
    ensures FindIn(Without(kvs, key), k) == if k == key then None else FindIn(kvs, k)
  {
    if kvs != [] {
      FindInWithout(kvs[1..], key, k);
      if kvs[0].key == key {
        assert forall kv :: kv in kvs[1..] ==> kv.key != key;
        assert Without(kvs, key) == kvs[1..];
      } else {
        WithoutTail(kvs, key);
        assert ([kvs[0]] + Without(kvs[1..], key))[1..] == Without(kvs[1..], key);
      }
    }
  }

  lemma WithoutKeeps<V>(kvs: seq<KV<V>>, key: Key, b: nat, n: nat)
    requires n > 0 && DistinctKeys(kvs) && InBucket(kvs, b, n)
    ensures DistinctKeys(Without(kvs, key)) && InBucket(Without(kvs, key), b, n)
    ensures forall kv :: kv in Without(kvs, key) ==> kv.key != key
  {
    hide FindIn, IndexIn;
    var i, r := IndexIn(kvs, key), Without(kvs, key);
    forall j | 0 <= j < |r|
      ensures r[j] == kvs[if j < i then j else j + 1] && r[j].key != key
    {
    }
  }

  function InsertInto<V>(t: Table<V>, kv: KV<V>): (r: Table<V>)
    requires |t| > 0
    ensures |r| == |t|
  {
    var b := BucketNum(t, kv.key);
    t[b := Chain([kv] + Without(t[b].kvs, kv.key))]
  }

  function RemoveFrom<V>(t: Table<V>, key: Key): (r: Table<V>)
    requires |t| > 0
    ensures |r| == |t|
  {
    var b := BucketNum(t, key);
    t[b := Chain(Without(t[b].kvs, key))]
  }

  // The table after writing through the value pointer of the pair with the key:
  // the pair keeps its place.
  function SetIn<V>(t: Table<V>, key: Key, value: V): (r: Table<V>)
    requires |t| > 0 && Find(t, key).Some?
    ensures |r| == |t|
  {
    var b := BucketNum(t, key);
    t[b := Chain(t[b].kvs[IndexIn(t[b].kvs, key) := KV(key, value)])]
  }

  lemma SetWellFormed<V>(t: Table<V>, key: Key, value: V)
    requires WellFormed(t) && Find(t, key).Some?
    ensures WellFormed(SetIn(t, key, value)) && Size(SetIn(t, key, value)) == Size(t)
  {
    hide AllPairs;
    var b := BucketNum(t, key);
    AllPairsReplace(t, b, SetIn(t, key, value)[b]);
  }

  lemma SetFind<V>(t: Table<V>, key: Key, value: V, k: Key)
    requires WellFormed(t) && Find(t, key).Some?
    ensures Find(SetIn(t, key, value), k) == if k == key then Some(KV(key, value)) else Find(t, k)
  {
    var b := BucketNum(t, key);
    SetFindIn(t[b].kvs, IndexIn(t[b].kvs, key), value, k);
  }

  lemma {:induction false} SetFindIn<V>(kvs: seq<KV<V>>, i: nat, value: V, k: Key)
    requires DistinctKeys(kvs) && i < |kvs|
    ensures var kv := KV(kvs[i].key, value);
            FindIn(kvs[i := kv], k) == if k == kvs[i].key then Some(kv) else FindIn(kvs, k)
  {
    var kv := KV(kvs[i].key, value);
    if i > 0 {
      assert kvs[i := kv][1..] == kvs[1..][i - 1 := kv];
      SetFindIn(kvs[1..], i - 1, value, k);
    } else {
      assert kvs[i := kv][1..] == kvs[1..];
    }
  }

  lemma InsertWellFormed<V>(t: Table<V>, kv: KV<V>)
    requires WellFormed(t)
    ensures WellFormed(InsertInto(t, kv))
  {
    var b := BucketNum(t, kv.key);
    WithoutKeeps(t[b].kvs, kv.key, b, |t|);
  }

  // An insertion changes what is found for its own key and for no other.
  lemma InsertFind<V>(t: Table<V>, kv: KV<V>, k: Key)
    requires WellFormed(t)
    ensures Find(InsertInto(t, kv), k) == if k == kv.key then Some(kv) else Find(t, k)
  {
    var b := BucketNum(t, kv.key);
    FindInWithout(t[b].kvs, kv.key, k);
    assert ([kv] + Without(t[b].kvs, kv.key))[1..] == Without(t[b].kvs, kv.key);
  }

  lemma RemoveWellFormed<V>(t: Table<V>, key: Key)
    requires WellFormed(t)
    ensures WellFormed(RemoveFrom(t, key))
  {
    var b := BucketNum(t, key);
    WithoutKeeps(t[b].kvs, key, b, |t|);
  }

  lemma RemoveFind<V>(t: Table<V>, key: Key, k: Key)
    requires WellFormed(t)
    ensures Find(RemoveFrom(t, key), k) == if k == key then None else Find(t, k)
  {
    FindInWithout(t[BucketNum(t, key)].kvs, key, k);
  }

  // A key belongs in the bucket of its remainder.  There a new pair goes to the front, and
  // a pair that it replaces leaves its place; no other bucket changes.
  lemma InsertPlaces<V>(t: Table<V>, kv: KV<V>, i: nat)
    requires WellFormed(t)
    ensures var b, t' := kv.key % |t|, InsertInto(t, kv); var kvs := t[b].kvs;
            && t' == t[b := t'[b]]
            && (Find(t, kv.key) == None ==> t'[b].kvs == [kv] + kvs)
            && (i < |kvs| && kvs[i].key == kv.key ==> t'[b].kvs == [kv] + kvs[..i] + kvs[i + 1..])
  {
    var b := kv.key % |t|;
    var kvs := t[b].kvs;
    if i < |kvs| && kvs[i].key == kv.key {
      OnlyIndex(kvs, i);
      assert [kv] + (kvs[..i] + kvs[i + 1..]) == [kv] + kvs[..i] + kvs[i + 1..];
    }
  }

  lemma RemovePlaces<V>(t: Table<V>, key: Key, i: nat)
    requires WellFormed(t)
    ensures var b, t' := key % |t|, RemoveFrom(t, key); var kvs := t[b].kvs;
            && t' == t[b := t'[b]]
            && (Find(t, key) == None ==> t' == t)
            && (i < |kvs| && kvs[i].key == key ==> t'[b].kvs == kvs[..i] + kvs[i + 1..])
  {
    var b := key % |t|;
    var kvs := t[b].kvs;
    if i < |kvs| && kvs[i].key == key {
      OnlyIndex(kvs, i);
    }
  }

  lemma OnlyIndex<V>(kvs: seq<KV<V>>, i: nat)
    requires i < |kvs| && DistinctKeys(kvs)
    ensures IndexIn(kvs, kvs[i].key) == i
  {
    var j := IndexIn(kvs, kvs[i].key);
    assert kvs[i] in kvs;
  }

  lemma AllPairsSplit<V>(t: Table<V>, b: nat)
    requires b < |t|
    ensures AllPairs(t) == AllPairs(t[..b]) + t[b].kvs + AllPairs(t[b + 1..])
  {
    hide AllPairs;
    var upTo := t[..b + 1];
    PrefixSnoc(t, b);
    AllPairsLast(upTo);
    assert t == upTo + t[b + 1..];
    AllPairsConcat(upTo, t[b + 1..]);
  }

  lemma AllPairsLast<V>(t: Table<V>)
    requires t != []
    ensures AllPairs(t) == AllPairs(Init(t)) + Last(t).kvs
  {
  }

  lemma AllPairsReplace<V>(t: Table<V>, b: nat, c: Chain<V>)
    requires b < |t|
    ensures AllPairs(t) == AllPairs(t[..b]) + t[b].kvs + AllPairs(t[b + 1..])
    ensures AllPairs(t[b := c]) == AllPairs(t[..b]) + c.kvs + AllPairs(t[b + 1..])
  {
    hide AllPairs;
    var t' := t[b := c];
    AllPairsSplit(t, b);
    AllPairsSplit(t', b);
    assert t'[..b] == t[..b] && t'[b + 1..] == t[b + 1..];
  }

  lemma {:induction false} AllPairsConcat<V>(s: Table<V>, t: Table<V>)
    ensures AllPairs(s + t) == AllPairs(s) + AllPairs(t)
  {
    if t == [] {
      assert s + t == s;
    } else {
      AllPairsConcat(s, Init(t));
      hide AllPairs;
      assert Init(s + t) == s + Init(t) && Last(s + t) == Last(t);
      AllPairsLast(s + t);
      AllPairsLast(t);
    }
  }

  // How many pairs lie in the buckets in front of b.
  function PairsBefore<V>(t: Table<V>, b: nat): (n: nat)
    requires b <= |t|
  {
    if b == 0 then 0 else PairsBefore(t, b - 1) + |t[b - 1].kvs|
  }

  // Iteration goes from bucket to bucket, and from head to tail in each.
  lemma {:induction false} IterationOrder<V>(t: Table<V>, b: nat, j: nat)
    requires b < |t| && j < |t[b].kvs|
    ensures var i := PairsBefore(t, b) + j; i < |AllPairs(t)| && AllPairs(t)[i] == t[b].kvs[j]
  {
    AllPairsSplit(t, b);
    CountBefore(t, b);
    hide AllPairs;
  }

  lemma {:induction false} CountBefore<V>(t: Table<V>, b: nat)
    requires b <= |t|
    ensures |AllPairs(t[..b])| == PairsBefore(t, b)
  {
    if b > 0 {
      CountBefore(t, b - 1);
      PrefixSnoc(t, b - 1);
    }
  }

  function Size<V>(t: Table<V>): nat
  {
    |AllPairs(t)|
  }

  lemma SizeValue<V>(t: Table<V>)
    ensures Size(t) == |AllPairs(t)|
  {
  }

  lemma InsertSize<V>(t: Table<V>, kv: KV<V>)
    requires |t| > 0
    ensures Size(InsertInto(t, kv)) == Size(t) + if Find(t, kv.key).Some? then 0 else 1
  {
    var b := BucketNum(t, kv.key);
    AllPairsReplace(t, b, Chain([kv] + Without(t[b].kvs, kv.key)));
  }

  lemma RemoveSize<V>(t: Table<V>, key: Key)
    requires |t| > 0
    ensures Size(RemoveFrom(t, key)) == Size(t) - if Find(t, key).Some? then 1 else 0
  {
    var b := BucketNum(t, key);
    AllPairsReplace(t, b, Chain(Without(t[b].kvs, key)));
  }

  function EmptyTable<V>(n: nat): (t: Table<V>)
    ensures |t| == n && forall b :: 0 <= b < n ==> t[b].kvs == []
    ensures n > 0 ==> WellFormed(t)
  {
    seq(n, _ => Chain([]))
  }

  function InsertAll<V>(t: Table<V>, kvs: seq<KV<V>>): (r: Table<V>)
    requires |t| > 0
    ensures |r| == |t|
  {
    if kvs == [] then t else InsertInto(InsertAll(t, Init(kvs)), Last(kvs))
  }

  // The table that MaybeResize builds: nine times the buckets, every pair
  // inserted in iteration order.
  function Rehash<V>(t: Table<V>): (r: Table<V>)
    requires |t| > 0
    ensures |r| == 9 * |t|
  {
    InsertAll(EmptyTable(9 * |t|), AllPairs(t))
  }

  lemma {:induction false} EmptySize<V>(n: nat)
    ensures AllPairs(EmptyTable<V>(n)) == []
  {
    if n > 0 {
      assert Init(EmptyTable<V>(n)) == EmptyTable<V>(n - 1);
      EmptySize<V>(n - 1);
    }
  }

  lemma {:induction false} InsertAllFind<V>(n: nat, kvs: seq<KV<V>>, k: Key)
    requires n > 0 && DistinctKeys(kvs)
    ensures var r := InsertAll(EmptyTable(n), kvs);
            && WellFormed(r) && Size(r) == |kvs| && Find(r, k) == FindIn(kvs, k)
  {
    if kvs == [] {
      EmptySize<V>(n);
    } else {
      var before, kv := InsertAll(EmptyTable(n), Init(kvs)), Last(kvs);
      assert Init(kvs) + [kv] == kvs;
      LastIsNew(kvs);
      InsertAllFind(n, Init(kvs), k);
      InsertAllFind(n, Init(kvs), kv.key);
      hide InsertInto, FindIn, Find, Size, WellFormed, EmptyTable;
      InsertWellFormed(before, kv);
      InsertFind(before, kv, k);
      InsertSize(before, kv);
      FindInSnoc(Init(kvs), kv, k);
    }
  }

  lemma LastIsNew<V>(kvs: seq<KV<V>>)
    requires kvs != [] && DistinctKeys(kvs)
    ensures FindIn(Init(kvs), Last(kvs).key) == None
  {
    forall kv | kv in Init(kvs)
      ensures kv.key != Last(kvs).key
    {
      var i :| 0 <= i < |Init(kvs)| && Init(kvs)[i] == kv;
      assert kvs[i] == kv;
    }
  }

  lemma {:induction false} FindInSnoc<V>(kvs: seq<KV<V>>, kv: KV<V>, k: Key)
    ensures FindIn(kvs + [kv], k) ==
            if FindIn(kvs, k).Some? then FindIn(kvs, k) else if kv.key == k then Some(kv) else None
  {
    if kvs != [] {
      assert (kvs + [kv])[1..] == kvs[1..] + [kv];
      FindInSnoc(kvs[1..], kv, k);
    }
  }

  // Rehashing keeps every pair and adds none.
  lemma RehashSame<V>(t: Table<V>)
    requires WellFormed(t)
    ensures WellFormed(Rehash(t)) && Size(Rehash(t)) == Size(t)
    ensures forall k: Key :: Find(Rehash(t), k) == Find(t, k)
  {
    AllPairsDistinct(t, |t|);
    forall k: Key
      ensures WellFormed(Rehash(t)) && Size(Rehash(t)) == Size(t) && Find(Rehash(t), k) == Find(t, k)
    {
      InsertAllFind(9 * |t|, AllPairs(t), k);
      FoundInAllPairs(t, k);
    }
    var k: Key := 0;
    InsertAllFind(9 * |t|, AllPairs(t), k);
  }

  lemma FoundInAllPairs<V>(t: Table<V>, k: Key)
    requires WellFormed(t) && DistinctKeys(AllPairs(t))
    ensures FindIn(AllPairs(t), k) == Find(t, k)
  {
    var f, g := FindIn(AllPairs(t), k), Find(t, k);
    if f.Some? {
      AllPairsAreFound(t, f.value);
    }
    if g.Some? {
      AllPairsAreFound(t, g.value);
    }
  }

  // The table after MaybeResize.
  function Resized<V>(t: Table<V>): (r: Table<V>)
    requires |t| > 0
    ensures |r| > 0
  {
    if Size(t) < 3 * |t| then t else Rehash(t)
  }

  // MaybeResize leaves room, keeps every pair and cannot be needed twice in a row.
  lemma ResizedSame<V>(t: Table<V>)
    requires WellFormed(t) && Size(t) <= 3 * |t|
    ensures WellFormed(Resized(t)) && Size(Resized(t)) == Size(t) < 3 * |Resized(t)|
    ensures forall k: Key :: Find(Resized(t), k) == Find(t, k)
  {
    RehashSame(t);
  }

  // What an insertion by way of MaybeResize finds.
  lemma InsertedFinds<V>(t: Table<V>, kv: KV<V>)
    requires WellFormed(t) && Size(t) <= 3 * |t|
    ensures var t' := InsertInto(Resized(t), kv);
            && WellFormed(t')
            && forall k: Key :: Find(t', k) == if k == kv.key then Some(kv) else Find(t, k)
  {
    hide Find, InsertInto, Resized;
    ResizedSame(t);
    InsertWellFormed(Resized(t), kv);
    forall k: Key
      ensures Find(InsertInto(Resized(t), kv), k) == if k == kv.key then Some(kv) else Find(t, k)
    {
      InsertFind(Resized(t), kv, k);
    }
  }
}
