/**
 The resizing chained hash table of hw1/HashTable.c, on the heap: an array of
 linked lists.  Every operation is tied to the table values of module Tables.
 */
module HashTable {
  import opened Common
  import opened Tables
  import opened LinkedList

  // FindKey up to the point where the pair may be removed: the iterator stands
  // on the first pair with the key, or past the end.
  method FindKey<V>(chain: LinkedList<KV<V>>, key: Key) returns (r: Option<KV<V>>, chainItr: LLIterator<KV<V>>)
    requires chain.Valid()
    ensures r == FindIn(chain.Contents(), key)
    ensures fresh(chainItr) && chainItr.Valid() && chainItr.list == chain
            && chainItr.idx == IndexIn(chain.Contents(), key)
  {
    hide *;
    chainItr := new LLIterator(chain);
    ghost var kvs := chain.Contents();
    var valid := chainItr.IsValid();
    while valid
      invariant chainItr.Valid() && chainItr.list == chain && fresh(chainItr)
      invariant valid <==> chainItr.idx < |kvs|
      invariant chainItr.idx <= IndexIn(kvs, key)
      decreases |kvs| - chainItr.idx
    {
      var curr := chainItr.Get();
      if curr.key == key {
        return Some(curr), chainItr;
      }
      valid := chainItr.Next();
    }
    r := None;
  }

  // FindKey with do_remove set.
  method FindAndRemoveKey<V>(chain: LinkedList<KV<V>>, key: Key) returns (r: Option<KV<V>>)
    requires chain.Valid()
    modifies chain, chain.nodes
    ensures chain.Valid() && r == FindIn(old(chain.Contents()), key)
    ensures chain.Contents() == Without(old(chain.Contents()), key)
    ensures chain.nodes == NodesWithout(old(chain.nodes), old(chain.Contents()), key)
  {
    hide *;
    var chainItr;
    r, chainItr := FindKey(chain, key);
    NodesWithoutValue(chain.nodes, chain.Contents(), key);
    if r.Some? {
      var _ := chainItr.Remove();
    }
  }

  // What HashTable_Insert does to the chain: a pair with this key goes, the new one
  // comes to the front.
  method ReplaceIn<V>(chain: LinkedList<KV<V>>, kv: KV<V>) returns (r: Option<KV<V>>)
    requires chain.Valid()
    modifies chain, chain.nodes
    ensures chain.Valid() && r == FindIn(old(chain.Contents()), kv.key)
    ensures chain.Contents() == [kv] + Without(old(chain.Contents()), kv.key)
    ensures |chain.nodes| > 0 && fresh(chain.nodes[0])
    ensures forall n :: n in chain.nodes ==> n == chain.nodes[0] || n in old(chain.nodes)
  {
    hide *;
    NodesWithoutValue(chain.nodes, chain.Contents(), kv.key);
    r := FindAndRemoveKey(chain, kv.key);
    chain.Push(kv);
    assert chain.nodes == [chain.nodes[0]] + chain.nodes[1..];
  }

  // One chain, from head to tail.
  method ReadChain<T>(chain: LinkedList<T>) returns (s: seq<T>)
    requires chain.Valid()
    ensures s == chain.Contents()
  {
    hide *;
    var it := new LLIterator(chain);
    ghost var all := chain.Contents();
    s := [];
    var valid := it.IsValid();
    while valid
      invariant it.Valid() && it.list == chain && fresh(it)
      invariant valid <==> it.idx < |all|
      invariant s == all[..it.idx]
      decreases |all| - it.idx
    {
      var payload := it.Get();
      s := s + [payload];
      valid := it.Next();
    }
    assert all[..|all|] == all;
  }

  // The loop of HashTable_Allocate.
  method EmptyLists<T>(n: nat) returns (lists: array<LinkedList<T>>)
    ensures fresh(lists) && lists.Length == n
    ensures forall b :: 0 <= b < n ==>
            fresh(lists[b]) && lists[b].Valid() && lists[b].nodes == [] && lists[b].Contents() == []
    ensures forall b, c :: 0 <= b < c < n ==> lists[b] != lists[c]
  {
    hide *;
    var none := new LinkedList<T>();
    lists := new LinkedList<T>[n](_ => none);
    for i := 0 to n
      invariant forall b :: 0 <= b < i ==>
                fresh(lists[b]) && lists[b].Valid() && lists[b].nodes == [] && lists[b].Contents() == []
      invariant forall b, c :: 0 <= b < c < i ==> lists[b] != lists[c]
    {
      var list := new LinkedList<T>();
      lists[i] := list;
    }
  }

  class HashTable<V> {
    var numBuckets: int
    var numElements: int
    var buckets: array<LinkedList<KV<V>>>
    ghost var table: Table<V>  // the pairs, bucket by bucket
    ghost var Repr: set<object>

    ghost predicate Valid()
      reads this, Repr
      ensures Valid() ==>
                && WellFormed(table) && numElements == Size(table) <= 3 * numBuckets
                && this in Repr && buckets in Repr && 0 < numBuckets == buckets.Length == |table|
                && (forall b :: 0 <= b < numBuckets ==> BucketValid(b))
                && (forall b, c :: 0 <= b < c < numBuckets ==> buckets[b] != buckets[c])
    {
      && this in Repr && buckets in Repr && 0 < numBuckets == buckets.Length == |table|
      && (forall b :: 0 <= b < numBuckets ==> BucketValid(b))
      && (forall b, c :: 0 <= b < c < numBuckets ==> buckets[b] != buckets[c])
      && WellFormed(table) && numElements == Size(table) <= 3 * numBuckets
    }

    // Bucket b is a well-formed list that holds what the table says.
    ghost predicate BucketValid(b: int)
      requires buckets in Repr && 0 <= b < buckets.Length == |table|
      reads this, Repr
      ensures BucketValid(b) ==>
                && buckets[b] in Repr && (forall n :: n in buckets[b].nodes ==> n in Repr && n.owner == buckets[b])
                && buckets[b].Valid() && buckets[b].Contents() == table[b].kvs
    {
      && buckets[b] in Repr && (forall n :: n in buckets[b].nodes ==> n in Repr)
      && buckets[b].Valid() && buckets[b].Contents() == table[b].kvs
    }

    // HashTable_Allocate.
    constructor (numBuckets: int)
      requires numBuckets > 0
      ensures Valid() && fresh(Repr) && table == EmptyTable(numBuckets)
    {
      var lists := EmptyLists<KV<V>>(numBuckets);
      this.numBuckets, this.numElements := numBuckets, 0;
      this.buckets := lists;
      this.table := EmptyTable(numBuckets);
      this.Repr := {this, lists} + (set b | 0 <= b < numBuckets :: lists[b]);
      new;
      hide *;
      EmptySize<V>(numBuckets);
      SizeValue(table);
      forall b: nat | b < numBuckets
        ensures BucketValid(b)
      {
        BucketIntro(b);
      }
      Intro();
    }

    // HashTable_Find.
    method Find(key: Key) returns (r: Option<KV<V>>)
      requires Valid()
      ensures r == Tables.Find(table, key)
    {
      var bucket := key % numBuckets;
      assert BucketValid(bucket);
      var chain := buckets[bucket];
      var chainItr;
      r, chainItr := FindKey(chain, key);
    }

    // HashTable_Remove.
    method Remove(key: Key) returns (r: Option<KV<V>>)
      requires Valid()
      modifies Repr
      ensures Valid() && Repr == old(Repr) && numBuckets == old(numBuckets) && buckets == old(buckets)
      ensures r == Tables.Find(old(table), key) && table == RemoveFrom(old(table), key)
      ensures var b := BucketNum(old(table), key);
              && buckets[..] == old(buckets[..])
              && Nodes() == old(Nodes())[b := NodesWithout(old(Nodes())[b], old(table)[b].kvs, key)]
    {
      hide *;
      ghost var b := BucketNum(table, key);
      FindValue(table, key);
      assert BucketValid(b);
      var chain := buckets[key % numBuckets];
      RemoveWellFormed(table, key);
      RemoveSize(table, key);
      NodesWithoutValue(chain.nodes, table[b].kvs, key);
      r := FindAndRemoveKey(chain, key);
      if r.Some? {
        numElements := numElements - 1;
      }
      table := RemoveFrom(table, key);
      OtherBuckets(b);
      BucketIntro(b);
      Intro();
    }

    // Write through the value pointer that HashTable_Find has returned for the key.
    method SetValue(key: Key, value: V)
      requires Valid() && Tables.Find(table, key).Some?
      modifies Repr
      ensures Valid() && Repr == old(Repr) && table == SetIn(old(table), key, value)
    {
      hide *;
      ghost var b := BucketNum(table, key);
      FindValue(table, key);
      SetValueIn(table, key, value);
      SetWellFormed(table, key, value);
      assert BucketValid(b);
      var chain := buckets[key % numBuckets];
      var r, chainItr := FindKey(chain, key);
      chainItr.Set(KV(key, value));
      table := SetIn(table, key, value);
      OtherBuckets(b);
      BucketIntro(b);
      Intro();
    }

    // HashTable_Insert.
    method Insert(newkeyvalue: KV<V>) returns (r: Option<KV<V>>)
      requires Valid()
      modifies Repr
      ensures Valid() && fresh(Repr - old(Repr))
      ensures r == Tables.Find(old(table), newkeyvalue.key)
      ensures table == InsertInto(Resized(old(table)), newkeyvalue)
      decreases Full(), 2
    {
      hide *;
      ResizedSame(table);
      MaybeResize();
      r := Replace(newkeyvalue);
    }

    ghost predicate Full()
      reads this
    {
      numElements >= 3 * numBuckets
    }

    lemma FullValue()
      ensures Full() <==> numElements >= 3 * numBuckets
    {
    }

    // HashTable_Insert after the call of MaybeResize.
    method Replace(newkeyvalue: KV<V>) returns (r: Option<KV<V>>)
      requires Valid() && numElements < 3 * numBuckets
      modifies Repr
      ensures Valid() && fresh(Repr - old(Repr)) && numBuckets == old(numBuckets)
      ensures r == Tables.Find(old(table), newkeyvalue.key)
      ensures table == InsertInto(old(table), newkeyvalue)
    {
      hide *;
      ghost var b := BucketNum(table, newkeyvalue.key);
      FindValue(table, newkeyvalue.key);
      InsertValue(table, newkeyvalue);
      assert BucketValid(b);
      var chain := buckets[newkeyvalue.key % numBuckets];
      InsertWellFormed(table, newkeyvalue);
      InsertSize(table, newkeyvalue);
      r := ReplaceIn(chain, newkeyvalue);
      if r.None? {
        numElements := numElements + 1;
      }
      table := InsertInto(table, newkeyvalue);
      Repr := Repr + {chain.nodes[0]};
      OtherBuckets(b);
      BucketIntro(b);
      Intro();
    }

    // The buckets as a client sees them that goes through the chains itself.
    method Chains() returns (t: Table<V>)
      requires Valid()
      ensures t == table
    {
      hide *;
      t := [];
      for b := 0 to numBuckets
        invariant t == table[..b]
      {
        assert BucketValid(b);
        var kvs := ReadChain(buckets[b]);
        t := t + [Chain(kvs)];
        assert table[..b + 1] == table[..b] + [table[b]] && Chain(kvs) == table[b];
      }
      assert table[..numBuckets] == table;
    }

    // The nodes of every bucket.
    ghost function Nodes(): (nodes: seq<seq<Node<KV<V>>>>)
      requires Valid()
      reads this, Repr
      ensures |nodes| == numBuckets
      ensures forall b :: 0 <= b < numBuckets ==> nodes[b] == buckets[b].nodes && |nodes[b]| == |table[b].kvs|
    {
      NodesFrom(0)
    }

    ghost function NodesFrom(from: nat): (nodes: seq<seq<Node<KV<V>>>>)
      requires Valid() && from <= numBuckets
      reads this, Repr
      ensures |nodes| == numBuckets - from
      ensures forall b :: from <= b < numBuckets ==>
                nodes[b - from] == buckets[b].nodes && |nodes[b - from]| == |table[b].kvs|
      decreases numBuckets - from
    {
      if from == numBuckets then [] else
        assert BucketValid(from);
        [buckets[from].nodes] + NodesFrom(from + 1)
    }

    // The first bucket from the given one on that is not empty, and an iterator
    // over its list.
    method NonEmptyFrom(from: nat) returns (i: nat, bucketIt: LLIterator?<KV<V>>)
      requires Valid() && from <= numBuckets
      ensures from <= i <= numBuckets && Size(table[..i]) == Size(table[..from])
      ensures i < numBuckets ==>
                && fresh(bucketIt) && bucketIt.Valid() && bucketIt.list == buckets[i]
                && bucketIt.idx == 0 < |table[i].kvs|
      ensures i == numBuckets ==> bucketIt == null && Size(table[..from]) == Size(table)
    {
      hide *;
      i, bucketIt := from, null;
      while i < numBuckets
        invariant from <= i <= numBuckets && Size(table[..i]) == Size(table[..from])
      {
        assert BucketValid(i);
        buckets[i].ValidNodes();
        PrefixSize(table, i);
        if buckets[i].numElements > 0 {
          bucketIt := new LLIterator(buckets[i]);
          return;
        }
        i := i + 1;
      }
      NothingBefore(table);
    }

    // MaybeResize.
    method MaybeResize()
      requires Valid()
      modifies Repr
      ensures Valid() && fresh(Repr - old(Repr))
      ensures table == Resized(old(table)) && numElements == old(numElements)
      decreases Full(), 1
    {
      hide *;
      ResizedValue(table);
      FullValue();
      if numElements < 3 * numBuckets {
        return;
      }
      var newht := new HashTable<V>(numBuckets * 9);
      CopyInto(newht);
      label swap:
      numBuckets, newht.numBuckets := newht.numBuckets, numBuckets;
      numElements, newht.numElements := newht.numElements, numElements;
      buckets, newht.buckets := newht.buckets, buckets;
      table, newht.table := newht.table, table;
      Repr := Repr + newht.Repr;
      TookOver@swap(newht);
    }

    // The loop of MaybeResize: insert every pair into the new table.
    method CopyInto(newht: HashTable<V>)
      requires Valid() && Full() && newht.Valid() && Repr !! newht.Repr && newht.table == EmptyTable(9 * numBuckets)
      modifies newht.Repr
      ensures newht.Valid() && fresh(newht.Repr - old(newht.Repr)) && newht.numElements == numElements
      ensures newht.table == InsertAll(EmptyTable(9 * numBuckets), AllPairs(table))
      decreases Full(), 0
    {
      hide *;
      var it := new HTIterator(this);
      InsertAllNothing(newht.table, AllPairs(table));
      SizeValue(table);
      FullValue();
      var valid := it.IsValid();
      while valid
        invariant newht.Valid() && it.Valid() && it.ht == this
        invariant fresh(newht.Repr - old(newht.Repr)) && fresh(it) && (it.bucketIt != null ==> fresh(it.bucketIt))
        invariant it !in newht.Repr && it.bucketIt !in newht.Repr
        invariant valid <==> it.pos < Size(table)
        invariant it.pos <= Size(table)
        invariant newht.table == InsertAll(EmptyTable(9 * numBuckets), AllPairs(table)[..it.pos])
        decreases Size(table) - it.pos
      {
        var item := it.Get();
        InsertAllOne(table, it.pos);
        newht.FullValue();
        var _ := newht.Insert(item.value);
        valid := it.Next();
      }
      AllTaken(table);
    }

    // This record has taken the place of newht's.
    twostate lemma TookOver(newht: HashTable<V>)
      requires old(newht.Valid()) && unchanged(old(newht.Repr) - {newht}) && old(newht.Repr) <= Repr && this in Repr
      requires numBuckets == old(newht.numBuckets) && numElements == old(newht.numElements)
      requires buckets == old(newht.buckets) && table == old(newht.table)
      ensures Valid()
    {
      hide *;
      assert unchanged(buckets);
      forall b: nat | b < numBuckets
        ensures BucketValid(b)
      {
        assert old(newht.BucketValid(b));
        OtherList(buckets[b]);
        BucketIntro(b);
      }
      Intro();
    }

    lemma Intro()
      requires this in Repr && buckets in Repr && 0 < numBuckets == buckets.Length == |table|
      requires forall b :: 0 <= b < numBuckets ==> BucketValid(b)
      requires forall b, c :: 0 <= b < c < numBuckets ==> buckets[b] != buckets[c]
      requires WellFormed(table) && numElements == Size(table) <= 3 * numBuckets
      ensures Valid()
    {
    }

    lemma BucketIntro(b: int)
      requires buckets in Repr && 0 <= b < buckets.Length == |table|
      requires buckets[b] in Repr && (forall n :: n in buckets[b].nodes ==> n in Repr)
      requires buckets[b].Valid() && buckets[b].Contents() == table[b].kvs
      ensures BucketValid(b)
    {
    }

    // No list but that of bucket b has changed.
    twostate lemma OtherBuckets(b: nat)
      requires old(Valid()) && b < numBuckets == old(numBuckets) && |table| == numBuckets
      requires forall c :: 0 <= c < numBuckets && c != b ==> table[c] == old(table)[c]
      requires buckets == old(buckets) && old(Repr) <= Repr
      requires var chain := old(buckets[b]);
               forall o: object | o in old(Repr) && o != this && o != chain && o !in old(chain.nodes) :: unchanged(o)
      ensures forall c :: 0 <= c < numBuckets && c != b ==> BucketValid(c)
      ensures buckets[..] == old(buckets[..])
      ensures forall c :: 0 <= c < numBuckets && c != b ==> buckets[c].nodes == old(buckets[c].nodes)
    {
      hide *;
      assert unchanged(buckets);
      var chain := old(buckets[b]);
      forall c: nat | c < numBuckets && c != b
        ensures BucketValid(c) && buckets[c].nodes == old(buckets[c].nodes)
      {
        assert old(BucketValid(c));
        assert old(BucketValid(b));
        assert unchanged(old(buckets[c]));
        var ns := old(buckets[c].nodes);
        forall i | 0 <= i < |ns|
          ensures unchanged(ns[i])
        {
          assert ns[i] in ns && ns[i].owner == old(buckets[c]) != chain;
          assert ns[i] !in old(chain.nodes);
        }
        assert unchanged(ns);
        OtherList(old(buckets[c]));
        BucketIntro(c);
      }
    }
  }

  const INVALID_IDX := -1

  class HTIterator<V> {
    const ht: HashTable<V>
    var bucketIt: LLIterator?<KV<V>>
    var bucketIdx: int
    ghost var pos: nat  // the number of pairs the iterator has passed

    ghost predicate Valid()
      reads this, ht, ht.Repr, bucketIt
      ensures Valid() ==>
                && ht.Valid() && this !in ht.Repr && bucketIt !in ht.Repr
                && if bucketIdx == INVALID_IDX then pos == Size(ht.table)
                   else
                     && bucketIt != null && 0 <= bucketIdx < ht.numBuckets && bucketIt.list == ht.buckets[bucketIdx]
                     && bucketIt.idx < |ht.table[bucketIdx].kvs| && pos == Size(ht.table[..bucketIdx]) + bucketIt.idx
    {
      && ht.Valid() && this !in ht.Repr && bucketIt !in ht.Repr
      && if bucketIdx == INVALID_IDX then pos == Size(ht.table)
         else
           && bucketIt != null && 0 <= bucketIdx < ht.numBuckets && bucketIt.list == ht.buckets[bucketIdx]
           && ht.BucketValid(bucketIdx)
           && bucketIt.Valid() && bucketIt.idx < |ht.table[bucketIdx].kvs|
           && pos == Size(ht.table[..bucketIdx]) + bucketIt.idx
    }

    lemma Parts()
      requires Valid()
      ensures bucketIdx != INVALID_IDX ==>
                && bucketIt != null && 0 <= bucketIdx < ht.numBuckets && bucketIt.list == ht.buckets[bucketIdx]
                && ht.BucketValid(bucketIdx) && bucketIt.Valid() && bucketIt.idx < |bucketIt.list.nodes|
    {
    }

    lemma Intro()
      requires ht.Valid() && this !in ht.Repr && bucketIt !in ht.Repr
      requires bucketIdx == INVALID_IDX ==> pos == Size(ht.table)
      requires bucketIdx != INVALID_IDX ==>
                 && bucketIt != null && 0 <= bucketIdx < ht.numBuckets && bucketIt.list == ht.buckets[bucketIdx]
                 && 0 <= bucketIt.idx < |ht.table[bucketIdx].kvs|
                 && bucketIt.node == ht.Nodes()[bucketIdx][bucketIt.idx]
                 && pos == Size(ht.table[..bucketIdx]) + bucketIt.idx
      ensures Valid()
    {
      assert bucketIdx != INVALID_IDX ==> ht.BucketValid(bucketIdx);
    }

    // HTIterator_Allocate.
    constructor (table: HashTable<V>)
      requires table.Valid()
      ensures Valid() && ht == table && pos == 0 && (bucketIt != null ==> fresh(bucketIt))
    {
      ht, bucketIt, bucketIdx, pos := table, null, INVALID_IDX, 0;
      new;
      hide *;
      InvalidIdx();
      NothingBefore(table.table);
      if table.numElements != 0 {
        bucketIdx, bucketIt := table.NonEmptyFrom(0);
      }
      Intro();
    }

    method IsValid() returns (b: bool)
      requires Valid()
      ensures b <==> pos < Size(ht.table)
    {
      hide *;
      Parts();
      InvalidIdx();
      PosIsPair();
      if bucketIdx == INVALID_IDX {
        return false;
      }
      b := bucketIt.IsValid();
    }

    method Get() returns (r: Option<KV<V>>)
      requires Valid()
      ensures r == if pos < Size(ht.table) then Some(AllPairs(ht.table)[pos]) else None
    {
      hide *;
      var b := IsValid();
      if !b {
        return None;
      }
      PosIsPair();
      Parts();
      var payload := bucketIt.Get();
      r := Some(payload);
    }

    method Next() returns (b: bool)
      requires Valid()
      modifies this, bucketIt
      ensures Valid() && (bucketIt != null && bucketIt != old(bucketIt) ==> fresh(bucketIt))
      ensures pos == if old(pos) < Size(ht.table) then old(pos) + 1 else old(pos)
      ensures b <==> pos < Size(ht.table)
      ensures bucketIdx == INVALID_IDX || old(bucketIdx) <= bucketIdx
    {
      hide *;
      Parts();
      InvalidIdx();
      PosIsPair();
      if bucketIdx == INVALID_IDX {
        return false;
      }
      var _ := bucketIt.Next();
      pos := pos + 1;
      b := bucketIt.IsValid();
      if b {
        Intro();
      } else {
        PrefixSize(ht.table, bucketIdx);
        b := GoToBucket(bucketIdx + 1);
      }
      PosIsPair();
    }

    // The search of HTIterator_Next for a bucket with pairs in it.
    method GoToBucket(from: nat) returns (b: bool)
      requires ht.Valid() && this !in ht.Repr && from <= ht.numBuckets && pos == Size(ht.table[..from])
      modifies this`bucketIt, this`bucketIdx
      ensures Valid() && (b <==> bucketIdx != INVALID_IDX) && (bucketIt != null ==> fresh(bucketIt))
      ensures bucketIdx == INVALID_IDX || from <= bucketIdx
    {
      hide *;
      InvalidIdx();
      bucketIdx, bucketIt := ht.NonEmptyFrom(from);
      b := bucketIdx < ht.numBuckets;
      if !b {
        bucketIdx := INVALID_IDX;
      }
      Intro();
    }

    // HTIterator_Remove: step on, then remove the pair that was left behind.
    method Remove() returns (r: Option<KV<V>>)
      requires Valid()
      modifies this, bucketIt, ht.Repr
      ensures Valid() && ht.Repr == old(ht.Repr) && (bucketIt != null && bucketIt != old(bucketIt) ==> fresh(bucketIt))
      ensures pos == old(pos) && |ht.table| == |old(ht.table)|
      ensures pos == Size(old(ht.table)) ==> r == None && ht.table == old(ht.table)
      ensures pos < Size(old(ht.table)) ==>
                && var pairs := AllPairs(old(ht.table));
                && r == Some(pairs[pos]) && AllPairs(ht.table) == pairs[..pos] + pairs[pos + 1..]
    {
      hide *;
      SizeValue(ht.table);
      r := Get();
      if r == None {
        return;
      }
      PosIsPair();
      Parts();
      ghost var b, i := bucketIdx, bucketIt.idx;
      RemoveAtPlace(ht.table, b, i);
      RemoveAtPos(ht.table, b, i);
      var _ := Next();
      var removed := RemoveBehind(r.value, b, i);
      assert removed == r;
    }

    // The second half of HTIterator_Remove: the iterator has just passed the pair
    // at place i of bucket b.
    method RemoveBehind(kv: KV<V>, ghost b: nat, ghost i: nat) returns (r: Option<KV<V>>)
      requires Valid() && b < |ht.table| && i < |ht.table[b].kvs| && kv == ht.table[b].kvs[i]
      requires pos == Size(ht.table[..b]) + i + 1 && (bucketIdx == INVALID_IDX || b <= bucketIdx)
      modifies this`pos, bucketIt, ht.Repr
      ensures Valid() && ht.Repr == old(ht.Repr) && pos == old(pos) - 1
      ensures r == Some(kv) && ht.table == RemoveFrom(old(ht.table), kv.key)
    {
      hide *;
      Parts();
      InvalidIdx();
      RemoveAtPlace(ht.table, b, i);
      RemoveAtPos(ht.table, b, i);
      if bucketIdx == INVALID_IDX {
        r := ht.Remove(kv.key);
      } else {
        PlaceBehind(ht.table, ht.Nodes(), b, i, bucketIdx, bucketIt.idx);
        r := ht.Remove(kv.key);
        bucketIt.idx := bucketIt.idx - if bucketIdx == b then 1 else 0;
      }
      pos := pos - 1;
      Intro();
    }

    lemma PosIsPair()
      requires Valid()
      ensures bucketIdx == INVALID_IDX <==> pos == Size(ht.table)
      ensures pos <= Size(ht.table) == |AllPairs(ht.table)|
      ensures bucketIdx != INVALID_IDX ==> AllPairs(ht.table)[pos] == ht.table[bucketIdx].kvs[bucketIt.idx]
    {
      if bucketIdx != INVALID_IDX {
        PairAt(ht.table, bucketIdx, bucketIt.idx);
      }
    }
  }

  lemma InvalidIdx()
    ensures INVALID_IDX == -1
  {
  }

  lemma NothingBefore<V>(t: Table<V>)
    ensures Size(t[..0]) == 0 && t[..|t|] == t
  {
  }

  lemma PrefixSize<V>(t: Table<V>, b: nat)
    requires b < |t|
    ensures Size(t[..b + 1]) == Size(t[..b]) + |t[b].kvs|
  {
    PrefixSnoc(t, b);
  }

  // Removing the pair at place i of bucket b.
  lemma RemoveAtPlace<V>(t: Table<V>, b: nat, i: nat)
    requires WellFormed(t) && b < |t| && i < |t[b].kvs|
    ensures var kvs := t[b].kvs; var key := kvs[i].key;
            && BucketNum(t, key) == b && IndexIn(kvs, key) == i && Find(t, key) == Some(kvs[i])
            && RemoveFrom(t, key) == t[b := Chain(kvs[..i] + kvs[i + 1..])]
  {
    hide FindIn, IndexIn;
    var kvs := t[b].kvs;
    assert kvs[i] in kvs && DistinctKeys(kvs) && InBucket(kvs, b, |t|);
    FindInIsMember(kvs, kvs[i]);
    assert IndexIn(kvs, kvs[i].key) == i;
  }

  lemma RemoveAtPos<V>(t: Table<V>, b: nat, i: nat)
    requires b < |t| && i < |t[b].kvs|
    ensures var kvs := t[b].kvs; var t' := t[b := Chain(kvs[..i] + kvs[i + 1..])]; var pos := Size(t[..b]) + i;
            && pos < Size(t) && Size(t') == Size(t) - 1
            && AllPairs(t') == AllPairs(t)[..pos] + AllPairs(t)[pos + 1..]
  {
    hide AllPairs;
    var kvs := t[b].kvs;
    AllPairsReplace(t, b, Chain(kvs[..i] + kvs[i + 1..]));
  }

  lemma RemoveAtPrefix<V>(t: Table<V>, b: nat, i: nat, c: nat)
    requires b < |t| && i < |t[b].kvs| && c <= |t|
    ensures var kvs := t[b].kvs; var t' := t[b := Chain(kvs[..i] + kvs[i + 1..])];
            Size(t'[..c]) == Size(t[..c]) - if c <= b then 0 else 1
  {
    hide AllPairs;
    var kvs := t[b].kvs;
    var t' := t[b := Chain(kvs[..i] + kvs[i + 1..])];
    if c <= b {
      assert t'[..c] == t[..c];
    } else {
      assert t'[..c] == t[..c][b := t'[b]];
      RemoveAtPos(t[..c], b, i);
    }
  }

  // A place that lies behind the removed pair, before and after its removal.
  lemma PlaceBehind<V, N>(t: Table<V>, nodes: seq<seq<N>>, b: nat, i: nat, c: nat, j: nat)
    requires WellFormed(t) && |nodes| == |t| && b < |t| && i < |t[b].kvs| && b <= c < |t| && j < |t[c].kvs|
    requires forall b :: 0 <= b < |t| ==> |nodes[b]| == |t[b].kvs|
    requires Size(t[..c]) + j == Size(t[..b]) + i + 1
    ensures var key := t[b].kvs[i].key; var t' := RemoveFrom(t, key);
            var nodes' := nodes[b := NodesWithout(nodes[b], t[b].kvs, key)];
            var j' := j - if c == b then 1 else 0;
            && 0 <= j' < |t'[c].kvs| == |nodes'[c]| && nodes'[c][j'] == nodes[c][j]
            && Size(t'[..c]) + j' == Size(t[..b]) + i
  {
    hide *;
    RemoveAtPlace(t, b, i);
    RemoveAtPrefix(t, b, i, c);
    NodesWithoutValue(nodes[b], t[b].kvs, t[b].kvs[i].key);
  }

  lemma PairAt<V>(t: Table<V>, b: nat, i: nat)
    requires b < |t| && i < |t[b].kvs|
    ensures Size(t[..b]) + i < Size(t) && AllPairs(t)[Size(t[..b]) + i] == t[b].kvs[i]
  {
    AllPairsSplit(t, b);
  }

  // A list is as it was when neither it nor its nodes have been written to.
  twostate lemma OtherList<T>(a: LinkedList<T>)
    requires old(a.Valid()) && unchanged(a) && unchanged(old(a.nodes))
    ensures a.Valid() && a.nodes == old(a.nodes) && a.Contents() == old(a.Contents())
  {
    hide *;
  }

  // What is left of the nodes of a chain after the pair with the key is unlinked.
  ghost function NodesWithout<V, N>(nodes: seq<N>, kvs: seq<KV<V>>, key: Key): seq<N>
    requires |nodes| == |kvs|
  {
    var i := IndexIn(kvs, key);
    if i < |kvs| then nodes[..i] + nodes[i + 1..] else nodes
  }

  lemma NodesWithoutValue<V, N>(nodes: seq<N>, kvs: seq<KV<V>>, key: Key)
    requires |nodes| == |kvs|
    ensures var i := IndexIn(kvs, key);
            && NodesWithout(nodes, kvs, key) == (if i < |kvs| then nodes[..i] + nodes[i + 1..] else nodes)
            && Without(kvs, key) == (if i < |kvs| then kvs[..i] + kvs[i + 1..] else kvs)
            && (forall n :: n in NodesWithout(nodes, kvs, key) ==> n in nodes)
  {
    hide FindIn, IndexIn;
  }

  lemma ResizedValue<V>(t: Table<V>)
    requires |t| > 0
    ensures Resized(t) == if Size(t) < 3 * |t| then t else InsertAll(EmptyTable(9 * |t|), AllPairs(t))
    ensures Size(t) == |AllPairs(t)|
  {
  }

  lemma InsertAllNothing<V>(t: Table<V>, kvs: seq<KV<V>>)
    requires |t| > 0
    ensures InsertAll(t, kvs[..0]) == t
  {
  }

  lemma AllTaken<V>(t: Table<V>)
    requires WellFormed(t) && Size(t) <= 3 * |t|
    ensures AllPairs(t)[..Size(t)] == AllPairs(t) && Size(InsertAll(EmptyTable(9 * |t|), AllPairs(t))) == Size(t)
  {
    RehashSame(t);
  }

  // One more pair in the new table; it is far from full.
  lemma {:induction false} InsertAllOne<V>(t: Table<V>, k: nat)
    requires WellFormed(t) && k < Size(t) <= 3 * |t|
    ensures var before := InsertAll(EmptyTable(9 * |t|), AllPairs(t)[..k]);
            && Size(before) == k && Resized(before) == before
            && InsertAll(EmptyTable(9 * |t|), AllPairs(t)[..k + 1]) == InsertInto(before, AllPairs(t)[k])
  {
    PrefixSnoc(AllPairs(t), k);
    AllPairsDistinct(t, |t|);
    InsertAllFind(9 * |t|, AllPairs(t)[..k], 0);
  }

  lemma InsertValue<V>(t: Table<V>, kv: KV<V>)
    requires |t| > 0
    ensures var b := BucketNum(t, kv.key);
            InsertInto(t, kv) == t[b := Chain([kv] + Without(t[b].kvs, kv.key))]
  {
  }

  lemma SetValueIn<V>(t: Table<V>, key: Key, value: V)
    requires |t| > 0 && Tables.Find(t, key).Some?
    ensures var b := BucketNum(t, key); var i := IndexIn(t[b].kvs, key);
            i < |t[b].kvs| && SetIn(t, key, value) == t[b := Chain(t[b].kvs[i := KV(key, value)])]
  {
  }

  lemma FindValue<V>(t: Table<V>, key: Key)
    requires |t| > 0
    ensures var b := BucketNum(t, key);
            && b == key % |t|
            && Tables.Find(t, key) == FindIn(t[b].kvs, key)
            && RemoveFrom(t, key) == t[b := Chain(Without(t[b].kvs, key))]
            && (FindIn(t[b].kvs, key).None? ==> Without(t[b].kvs, key) == t[b].kvs)
  {
    var i := IndexIn(t[key % |t|].kvs, key);
  }
}
