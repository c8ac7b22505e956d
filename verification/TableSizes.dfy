/**
 How much room tables take: sums over their pairs, which no resize changes, and a bound
 on the number of buckets that every insertion keeps.
 */
module TableSizes {
  import opened Common
  import opened DiskLayout
  import opened Fnv
  import opened MemIndex
  import opened RoundTrip
  import T = Tables

  // ----- sums over pairs -----

  function Total<V>(f: KV<V> -> nat, kvs: seq<KV<V>>): nat
  {
    if kvs == [] then 0 else Total(f, Init(kvs)) + f(Last(kvs))
  }

  lemma {:induction false} TotalConcat<V>(f: KV<V> -> nat, a: seq<KV<V>>, b: seq<KV<V>>)
    ensures Total(f, a + b) == Total(f, a) + Total(f, b)
  {
    if b == [] {
      assert a + b == a;
    } else {
      assert Init(a + b) == a + Init(b);
      TotalConcat(f, a, Init(b));
    }
  }

  lemma TotalOne<V>(f: KV<V> -> nat, kv: KV<V>)
    ensures Total(f, [kv]) == f(kv)
  {
    assert Init([kv]) == [];
  }

  lemma TotalWithout<V>(f: KV<V> -> nat, kvs: seq<KV<V>>, key: Key)
    ensures Total(f, T.Without(kvs, key)) <= Total(f, kvs)
  {
    hide T.FindIn, T.IndexIn, Total;
    var i := T.IndexIn(kvs, key);
    if i < |kvs| {
      assert kvs == kvs[..i] + [kvs[i]] + kvs[i + 1..];
      TotalConcat(f, kvs[..i] + [kvs[i]], kvs[i + 1..]);
      TotalConcat(f, kvs[..i], [kvs[i]]);
      TotalConcat(f, kvs[..i], kvs[i + 1..]);
    }
  }

  // The sum over a table in which one bucket is another.
  lemma TotalReplace<V>(f: KV<V> -> nat, t: Table<V>, b: nat, c: Chain<V>)
    requires b < |t|
    ensures Total(f, T.AllPairs(t[b := c])) == Total(f, T.AllPairs(t)) - Total(f, t[b].kvs) + Total(f, c.kvs)
  {
    hide Total, T.AllPairs;
    T.AllPairsReplace(t, b, c);
    var l, r := T.AllPairs(t[..b]), T.AllPairs(t[b + 1..]);
    TotalConcat(f, l + t[b].kvs, r);
    TotalConcat(f, l, t[b].kvs);
    TotalConcat(f, l + c.kvs, r);
    TotalConcat(f, l, c.kvs);
  }

  lemma InsertTotal<V>(f: KV<V> -> nat, t: Table<V>, kv: KV<V>)
    requires |t| > 0
    ensures Total(f, T.AllPairs(T.InsertInto(t, kv))) <= Total(f, T.AllPairs(t)) + f(kv)
  {
    hide Total, T.AllPairs, T.Without;
    var b := T.BucketNum(t, kv.key);
    TotalReplace(f, t, b, Chain([kv] + T.Without(t[b].kvs, kv.key)));
    TotalConcat(f, [kv], T.Without(t[b].kvs, kv.key));
    TotalOne(f, kv);
    TotalWithout(f, t[b].kvs, kv.key);
  }

  lemma {:induction false} InsertAllTotal<V>(f: KV<V> -> nat, t: Table<V>, kvs: seq<KV<V>>)
    requires |t| > 0
    ensures Total(f, T.AllPairs(T.InsertAll(t, kvs))) <= Total(f, T.AllPairs(t)) + Total(f, kvs)
  {
    hide T.InsertInto, T.AllPairs;
    if kvs != [] {
      InsertAllTotal(f, t, Init(kvs));
      InsertTotal(f, T.InsertAll(t, Init(kvs)), Last(kvs));
    }
  }

  lemma InsertedTotal<V>(f: KV<V> -> nat, t: Table<V>, kv: KV<V>)
    requires |t| > 0
    ensures Total(f, T.AllPairs(T.InsertInto(T.Resized(t), kv))) <= Total(f, T.AllPairs(t)) + f(kv)
  {
    hide T.InsertInto, T.AllPairs, T.InsertAll, T.EmptyTable;
    InsertTotal(f, T.Resized(t), kv);
    T.EmptySize<V>(9 * |t|);
    InsertAllTotal(f, T.EmptyTable(9 * |t|), T.AllPairs(t));
  }

  lemma {:induction false} TotalUpdate<V>(f: KV<V> -> nat, kvs: seq<KV<V>>, i: nat, kv: KV<V>)
    requires i < |kvs|
    ensures Total(f, kvs[i := kv]) + f(kvs[i]) == Total(f, kvs) + f(kv)
  {
    var updated := kvs[i := kv];
    if i == |kvs| - 1 {
      assert Init(updated) == Init(kvs);
    } else {
      assert Init(updated) == Init(kvs)[i := kv];
      TotalUpdate(f, Init(kvs), i, kv);
    }
  }

  lemma SetTotal<V>(f: KV<V> -> nat, t: Table<V>, key: Key, value: V)
    requires |t| > 0 && T.Find(t, key).Some?
    ensures Total(f, T.AllPairs(T.SetIn(t, key, value))) + f(T.Find(t, key).value)
         == Total(f, T.AllPairs(t)) + f(KV(key, value))
  {
    hide Total, T.AllPairs, T.FindIn, T.IndexIn;
    var b := T.BucketNum(t, key);
    var i := T.IndexIn(t[b].kvs, key);
    TotalReplace(f, t, b, Chain(t[b].kvs[i := KV(key, value)]));
    TotalUpdate(f, t[b].kvs, i, KV(key, value));
  }

  lemma {:induction false} TotalLess<V>(f: KV<V> -> nat, g: KV<V> -> nat, c: nat, kvs: seq<KV<V>>)
    requires forall kv :: kv in kvs ==> f(kv) + c <= g(kv)
    ensures Total(f, kvs) + c * |kvs| <= Total(g, kvs)
  {
    if kvs != [] {
      TotalLess(f, g, c, Init(kvs));
      assert c * |kvs| == c * (|kvs| - 1) + c;
    }
  }

  // ----- the number of buckets -----

  // There are no more buckets than there were at first, or than three for every pair.
  ghost predicate Grown<V>(t: Table<V>, n: nat)
  {
    |t| <= n || |t| <= 3 * T.Size(t)
  }

  lemma InsertGrown<V>(t: Table<V>, kv: KV<V>, n: nat)
    requires T.WellFormed(t) && T.Size(t) <= 3 * |t| && Grown(t, n)
    ensures Grown(T.InsertInto(T.Resized(t), kv), n)
  {
    hide T.InsertInto, T.Size, T.InsertAll, T.AllPairs, T.EmptyTable;
    T.ResizedSame(t);
    T.InsertSize(T.Resized(t), kv);
  }

  lemma SetGrown<V>(t: Table<V>, key: Key, value: V, n: nat)
    requires T.WellFormed(t) && T.Find(t, key).Some? && Grown(t, n)
    ensures Grown(T.SetIn(t, key, value), n)
  {
    hide T.SetIn, T.Size, T.Find;
    T.SetWellFormed(t, key, value);
  }

  lemma EmptyGrown<V>(n: nat)
    ensures Grown(T.EmptyTable<V>(n), n) && T.Size(T.EmptyTable<V>(n)) == 0
    ensures forall f: KV<V> -> nat :: Total(f, T.AllPairs(T.EmptyTable<V>(n))) == 0
  {
    T.EmptySize<V>(n);
  }

  // ----- bytes -----

  // An element and its position record.
  function ElementRoom(kv: KV<Value>): nat
  {
    4 + ElementSize(kv)
  }

  lemma {:induction false} ElementsTotal(kvs: seq<KV<Value>>)
    ensures 4 * |kvs| + ElementsSize(kvs) == Total(ElementRoom, kvs)
  {
    hide ElementSize;
    if kvs != [] {
      ElementsTotal(Init(kvs));
    }
  }

  lemma {:induction false} BucketsTotal(t: Table<Value>)
    ensures BucketsSize(t) == Total(ElementRoom, T.AllPairs(t))
  {
    hide Total, ElementsSize;
    if t != [] {
      BucketsTotal(Init(t));
      ElementsTotal(Last(t).kvs);
      T.AllPairsLast(t);
      hide T.AllPairs;
      TotalConcat(ElementRoom, T.AllPairs(Init(t)), Last(t).kvs);
    } else {
      NoRoom();
    }
  }

  lemma NoRoom()
    ensures Total(ElementRoom, []) == 0 && T.AllPairs<Value>([]) == []
  {
  }

  // The room that a table with at most n buckets at first needs, whatever its buckets.
  function RoomFor(t: Table<Value>, n: nat): nat
  {
    4 + 8 * n + 24 * T.Size(t) + Total(ElementRoom, T.AllPairs(t))
  }

  lemma TableFitsRoom(t: Table<Value>, n: nat)
    requires Grown(t, n)
    ensures TableSize(t) <= RoomFor(t, n)
  {
    hide Total, BucketsSize, T.AllPairs;
    BucketsTotal(t);
  }

  lemma InsertRoom(t: Table<Value>, kv: KV<Value>, n: nat)
    requires T.WellFormed(t) && T.Size(t) <= 3 * |t| && Grown(t, n)
    ensures Grown(T.InsertInto(T.Resized(t), kv), n)
    ensures RoomFor(T.InsertInto(T.Resized(t), kv), n) <= RoomFor(t, n) + 24 + ElementRoom(kv)
  {
    hide Total, T.AllPairs, T.InsertInto, T.Resized, ElementRoom, T.Size, Grown;
    InsertGrown(t, kv, n);
    InsertedTotal(ElementRoom, t, kv);
    T.ResizedSame(t);
    T.InsertSize(T.Resized(t), kv);
  }

  // ----- the index -----

  // The room that a word needs: its bucket record, its element, and the nested table.
  function WordRoom(kv: KV<Value>): nat
  {
    match kv.value
    case Postings(word, table) => 34 + |word| + RoomFor(table, 1)
    case _ => 0
  }

  // No table of the index has more buckets than its growth accounts for.
  ghost predicate Compact(t: Table<Value>)
  {
    Grown(t, 16) && forall kv :: kv in T.AllPairs(t) ==> CompactWord(kv)
  }

  ghost predicate CompactWord(kv: KV<Value>)
  {
    kv.value.Postings? && Grown(kv.value.table, 1)
  }

  lemma WordFitsRoom(kv: KV<Value>)
    requires CompactWord(kv)
    ensures ElementRoom(kv) + 24 <= WordRoom(kv)
  {
    hide RoomFor, Grown, TableSize;
    TableFitsRoom(kv.value.table, 1);
  }

  lemma IndexFitsRoom(t: Table<Value>)
    requires Compact(t)
    ensures TableSize(t) <= 132 + Total(WordRoom, T.AllPairs(t))
  {
    hide Total, T.AllPairs, WordRoom, ElementRoom, Grown, TableSize, CompactWord;
    TableFitsRoom(t, 16);
    forall kv | kv in T.AllPairs(t)
      ensures ElementRoom(kv) + 24 <= WordRoom(kv)
    {
      WordFitsRoom(kv);
    }
    TotalLess(ElementRoom, WordRoom, 24, T.AllPairs(t));
  }

  lemma NewPair(t: Table<Value>, kv: KV<Value>, other: KV<Value>)
    requires T.WellFormed(t) && T.Size(t) <= 3 * |t| && other in T.AllPairs(T.InsertInto(T.Resized(t), kv))
    ensures other == kv || other in T.AllPairs(t)
  {
    hide T.AllPairs, T.Find, T.InsertInto, T.Resized, T.Size;
    T.InsertedFinds(t, kv);
    T.AllPairsAreFound(T.InsertInto(T.Resized(t), kv), other);
    T.AllPairsAreFound(t, other);
  }

  lemma SetPair(t: Table<Value>, key: Key, value: Value)
    requires T.WellFormed(t) && T.Find(t, key).Some?
    ensures forall other :: other in T.AllPairs(T.SetIn(t, key, value)) ==>
              other == KV(key, value) || other in T.AllPairs(t)
  {
    hide T.AllPairs, T.Find, T.SetIn, T.Size;
    T.SetWellFormed(t, key, value);
    forall other | other in T.AllPairs(T.SetIn(t, key, value))
      ensures other == KV(key, value) || other in T.AllPairs(t)
    {
      T.AllPairsAreFound(T.SetIn(t, key, value), other);
      T.SetFind(t, key, value, other.key);
      T.AllPairsAreFound(t, other);
    }
  }

  lemma EmptyRoom(word: seq<Byte>)
    ensures var e := T.EmptyTable<Value>(DEFAULT_POSTINGS_CAPACITY);
            && Grown(e, 1) && RoomFor(e, 1) == 12
            && (forall key: Key :: WordRoom(KV(key, Postings(word, e))) == 46 + |word|)
  {
    EmptyGrown<Value>(DEFAULT_POSTINGS_CAPACITY);
    T.EmptySize<Value>(DEFAULT_POSTINGS_CAPACITY);
  }

  lemma NewWordRoom(t: Table<Value>, word: seq<Byte>)
    requires T.WellFormed(t) && T.Size(t) <= 3 * |t| && Compact(t)
    ensures |t| > 0 && Compact(NewWord(t, word))
    ensures Total(WordRoom, T.AllPairs(NewWord(t, word))) <= Total(WordRoom, T.AllPairs(t)) + 46 + |word|
  {
    hide Total, T.AllPairs, T.InsertInto, T.Resized, T.Size, WordRoom, Grown, FnvHash, T.EmptyTable;
    var kv := KV(FnvHash(word), Postings(word, T.EmptyTable(DEFAULT_POSTINGS_CAPACITY)));
    EmptyRoom(word);
    InsertGrown(t, kv, 16);
    forall other | other in T.AllPairs(NewWord(t, word))
      ensures CompactWord(other)
    {
      NewPair(t, kv, other);
    }
    InsertedTotal(WordRoom, t, kv);
  }

  lemma PostedRoom(key: Key, word: seq<Byte>, table: Table<Value>, doc: Key, ps: seq<Position>)
    requires T.WellFormed(table) && T.Size(table) <= 3 * |table| && Grown(table, 1)
    ensures |table| > 0 && Grown(Posted(table, doc, ps), 1)
    ensures WordRoom(KV(key, Postings(word, Posted(table, doc, ps))))
         <= WordRoom(KV(key, Postings(word, table))) + 40 + 4 * |ps|
  {
    hide RoomFor, Grown, T.InsertInto, T.Resized, T.Size;
    InsertRoom(table, KV(doc, Positions(ps)), 1);
  }

  // One posting needs at most so much more room.
  lemma AddedNeeds(t: Table<Value>, word: seq<Byte>, doc: Key, ps: seq<Position>)
    requires IsMemIndex(t) && |t| > 0 && CanAdd(t, word, doc) && T.Size(t) <= 3 * |t| && Compact(t)
    ensures Compact(Added(t, word, doc, ps))
    ensures Total(WordRoom, T.AllPairs(Added(t, word, doc, ps)))
         <= Total(WordRoom, T.AllPairs(t)) + 86 + |word| + 4 * |ps|
  {
    hide *;
    Pairs(t, 0);
    AddedCases(t, word, doc, ps);
    var key := FnvHash(word);
    var t' := if T.Find(t, key).None? then NewWord(t, word) else t;
    if T.Find(t, key).None? {
      NewWordRoom(t, word);
    }
    Pairs(t', key);
    var table := T.Find(t', key).value.value.table;
    SameWordThere(t', word, doc);
    NotOverfullValue(table);
    DocTableWellFormed(table);
    CompactAt(t', key);
    PostedRoom(key, word, table, doc, ps);
    var value := Postings(word, Posted(table, doc, ps));
    SetTotal(WordRoom, t', key, value);
    CompactWordIntro(KV(key, value));
    SetCompact(t', key, value);
  }

  lemma SameWordThere(t: Table<Value>, word: seq<Byte>, doc: Key)
    requires |t| > 0 && CanAdd(t, word, doc) && T.Find(t, FnvHash(word)).Some?
    ensures var r := T.Find(t, FnvHash(word)).value;
            r.key == FnvHash(word) && r.value.Postings? && r.value.word == word
  {
    hide T.Find, FnvHash;
    T.FoundKey(t, FnvHash(word));
  }

  lemma NotOverfullValue(t: Table<Value>)
    ensures NotOverfull(t) <==> T.Size(t) <= 3 * |t|
  {
  }

  lemma CompactAt(t: Table<Value>, key: Key)
    requires T.WellFormed(t) && Compact(t) && T.Find(t, key).Some?
    ensures T.Find(t, key).value.value.Postings? && Grown(T.Find(t, key).value.value.table, 1)
  {
    hide T.AllPairs, T.Find, Grown;
    T.FoundKey(t, key);
    T.AllPairsAreFound(t, T.Find(t, key).value);
    assert CompactWord(T.Find(t, key).value);
  }

  lemma CompactWordIntro(kv: KV<Value>)
    requires kv.value.Postings? && Grown(kv.value.table, 1)
    ensures CompactWord(kv)
  {
  }

  lemma SetCompact(t: Table<Value>, key: Key, value: Value)
    requires T.WellFormed(t) && T.Find(t, key).Some? && Compact(t) && CompactWord(KV(key, value))
    ensures Compact(T.SetIn(t, key, value))
  {
    hide T.AllPairs, T.Find, T.SetIn, Grown, CompactWord;
    SetGrown(t, key, value, 16);
    SetPair(t, key, value);
  }
}
