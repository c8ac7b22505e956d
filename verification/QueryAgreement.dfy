/**
 A query over an index file answers as the query over the index in memory that
 the file was written from, with document ids replaced by document names.
 */
module QueryAgreement {
  import opened Common
  import opened LayoutStructs
  import opened IndexFile
  import opened DiskLayout
  import opened DiskRegions
  import opened LossyNames
  import opened WriteIndex
  import opened FileIndexReader
  import opened HashTableReader
  import opened TableReaders
  import opened RoundTrip
  import opened QueryProcessor
  import opened Fnv
  import opened MemIndex
  import opened Sorting
  import T = Tables

  // ----- what the file answers, in terms of the tables it holds -----

  // The name of a document, empty when the table does not have it.
  function NameOf(dt: Table<Value>, doc: Key): Name
    requires |dt| > 0
  {
    match T.Find(dt, doc)
    case None => []
    case Some(kv) => if kv.value.DocName? then kv.value.name else []
  }

  function CountsOf(dt: Table<Value>, kvs: seq<KV<Value>>): Counts
    requires |dt| > 0
  {
    if kvs == [] then map[] else CountsOf(dt, Init(kvs))[NameOf(dt, Last(kvs).key) := CountIn(Last(kvs))]
  }

  function CountsOfWord(dt: Table<Value>, mi: Table<Value>, word: seq<Byte>): Option<Counts>
    requires |dt| > 0 && |mi| > 0
  {
    match PostingsOf(mi, word)
    case None => None
    case Some(table) => Some(CountsOf(dt, T.AllPairs(table)))
  }

  function RefinedFrom(dt: Table<Value>, mi: Table<Value>, m: Counts, query: seq<seq<Byte>>, i: nat): Counts
    requires |dt| > 0 && |mi| > 0
    decreases |query| - i
  {
    if i >= |query| then m
    else
      match CountsOfWord(dt, mi, query[i])
      case None => map[]
      case Some(more) =>
        var both := Intersect(m, more);
        if both == map[] then map[] else RefinedFrom(dt, mi, both, query, i + 1)
  }

  function FileAnswer(dt: Table<Value>, mi: Table<Value>, query: seq<seq<Byte>>): Counts
    requires |dt| > 0 && |mi| > 0 && query != []
  {
    match CountsOfWord(dt, mi, query[0])
    case None => map[]
    case Some(m) => RefinedFrom(dt, mi, m, query, 1)
  }

  // The readers are open on a file that holds the two tables.
  ghost predicate OpenOn(ix: Index, dt: Table<Value>, mi: Table<Value>)
  {
    && IsDocTable(dt) && IsMemIndex(mi)
    && HoldsTable(ix.contents, ix.dtOffset, dt) && ix.dtBuckets == |dt| > 0
    && HoldsTable(ix.contents, ix.itOffset, mi) && ix.itBuckets == |mi| > 0
  }

  lemma NameReadBack(ix: Index, dt: Table<Value>, mi: Table<Value>, doc: Key)
    requires OpenOn(ix, dt, mi)
    ensures |dt| > 0 && NameAt(ix, doc) == Some(NameOf(dt, doc))
  {
    hide DocNameAt, T.Find, HoldsTable, IsMemIndex;
    DocNameReadBack(ix.contents, ix.dtOffset, dt, doc);
    DocNameFound(dt, doc);
  }

  lemma DocNameFound(dt: Table<Value>, doc: Key)
    requires IsDocTable(dt)
    ensures |dt| > 0 && (T.Find(dt, doc).Some? ==> T.Find(dt, doc).value.value.DocName?)
  {
    DocTableWellFormed(dt);
    var r := T.Find(dt, doc);
    if r.Some? {
      BucketKind(dt, T.BucketNum(dt, doc), r.value);
    }
  }

  lemma {:induction false} CountsReadBack(ix: Index, dt: Table<Value>, mi: Table<Value>, kvs: seq<KV<Value>>)
    requires OpenOn(ix, dt, mi) && forall kv :: kv in kvs ==> kv.value.Positions?
    ensures CountsByName(ix, HeadersOf(kvs)) == Some(CountsOf(dt, kvs))
    decreases |kvs|
  {
    hide *;
    OpenOnParts(ix, dt, mi);
    if kvs == [] {
      CountsNothing(ix, dt);
    } else {
      var hs, key := HeadersOf(kvs), Last(kvs).key;
      HeadersInit(kvs);
      CountsReadBack(ix, dt, mi, Init(kvs));
      NameReadBack(ix, dt, mi, key);
      CountsLast(ix, dt, hs, kvs);
    }
  }

  lemma CountsNothing(ix: Index, dt: Table<Value>)
    requires |dt| > 0
    ensures HeadersOf([]) == [] && CountsByName(ix, []) == Some(CountsOf(dt, []))
  {
  }

  lemma CountsLast(ix: Index, dt: Table<Value>, hs: seq<DocIDElementHeader>, kvs: seq<KV<Value>>)
    requires |dt| > 0 && hs != [] && kvs != [] && CountsByName(ix, Init(hs)) == Some(CountsOf(dt, Init(kvs)))
    requires Last(hs).docId == Last(kvs).key && Last(hs).numPositions == CountIn(Last(kvs))
    requires NameAt(ix, Last(kvs).key) == Some(NameOf(dt, Last(kvs).key))
    ensures CountsByName(ix, hs) == Some(CountsOf(dt, kvs))
  {
    hide NameAt, NameOf;
    assert AsKey(Last(hs).docId) == Last(kvs).key;
  }

  lemma HeadersInit(kvs: seq<KV<Value>>)
    requires kvs != [] && forall kv :: kv in kvs ==> kv.value.Positions?
    ensures var hs := HeadersOf(kvs);
            && hs != [] && Init(hs) == HeadersOf(Init(kvs)) && (forall kv :: kv in Init(kvs) ==> kv.value.Positions?)
            && |Init(kvs)| < |kvs| && Last(hs) == DocIDElementHeader(Last(kvs).key, CountIn(Last(kvs)))
  {
  }

  lemma WordCountsReadBack(ix: Index, dt: Table<Value>, mi: Table<Value>, word: seq<Byte>)
    requires OpenOn(ix, dt, mi)
    ensures |dt| > 0 && |mi| > 0 && WordCounts(ix, word) == Some(CountsOfWord(dt, mi, word))
  {
    OpenOnParts(ix, dt, mi);
    WordReadBack(ix.contents, ix.itOffset, mi, word);
    WordCountsValue(ix, word);
    PostingsKind(mi, word);
    hide OpenOn, HoldsTable, WordTableOffset, DocIDList, NumBucketsAt, PostingsOf, CountsOf,
         CountsByName, WordCounts, IsPostingTable;
    var table := PostingsOf(mi, word);
    if table.Some? {
      var off := WordTableOffset(ix.contents, ix.itOffset, ix.itBuckets, word).value.value;
      NumBucketsOfTable(ix.contents, off, table.value);
      DocIDListReadBack(ix.contents, off, table.value);
      CountsReadBack(ix, dt, mi, T.AllPairs(table.value));
    }
  }

  lemma OpenOnParts(ix: Index, dt: Table<Value>, mi: Table<Value>)
    requires OpenOn(ix, dt, mi)
    ensures IsIndexTable(mi) && IsMemIndex(mi) && |dt| > 0 && ix.itBuckets == |mi| > 0
    ensures HoldsTable(ix.contents, ix.itOffset, mi)
  {
  }

  lemma PostingsKind(mi: Table<Value>, word: seq<Byte>)
    requires IsMemIndex(mi)
    ensures |mi| > 0 && (PostingsOf(mi, word).Some? ==> IsPostingTable(PostingsOf(mi, word).value))
  {
    hide FnvHash, T.Find, IsPostingTable;
    Pairs(mi, FnvHash(word));
  }

  lemma {:induction false} RefineReadBack(ix: Index, dt: Table<Value>, mi: Table<Value>, m: Counts,
                                          query: seq<seq<Byte>>, i: nat)
    requires OpenOn(ix, dt, mi)
    ensures |dt| > 0 && |mi| > 0 && RefineFrom(ix, m, query, i) == Some(RefinedFrom(dt, mi, m, query, i))
    decreases |query| - i
  {
    hide OpenOn, WordCounts, CountsOfWord, Intersect;
    OpenOnParts(ix, dt, mi);
    if i < |query| {
      WordCountsReadBack(ix, dt, mi, query[i]);
      var more := CountsOfWord(dt, mi, query[i]);
      if more.Some? {
        RefineReadBack(ix, dt, mi, Intersect(m, more.value), query, i + 1);
      }
    }
  }

  // The file answers what its tables say.
  lemma AnswerReadBack(ix: Index, dt: Table<Value>, mi: Table<Value>, query: seq<seq<Byte>>)
    requires OpenOn(ix, dt, mi) && query != []
    ensures |dt| > 0 && |mi| > 0 && IndexAnswer(ix, query) == Some(FileAnswer(dt, mi, query))
  {
    hide OpenOn, WordCounts, CountsOfWord, RefineFrom, RefinedFrom;
    OpenOnParts(ix, dt, mi);
    WordCountsReadBack(ix, dt, mi, query[0]);
    var m := CountsOfWord(dt, mi, query[0]);
    if m.Some? {
      RefineReadBack(ix, dt, mi, m.value, query, 1);
    }
  }

  // ----- what the tables say -----

  // No two documents have the same name.
  ghost predicate NamesApart(dt: Table<Value>)
    requires |dt| > 0
  {
    forall d, e :: T.Find(dt, d).Some? && T.Find(dt, e).Some? && NameOf(dt, d) == NameOf(dt, e) ==> d == e
  }

  // Every document of the table has a name.
  ghost predicate Named(dt: Table<Value>, table: Table<Value>)
    requires |dt| > 0
  {
    |table| > 0 && forall d :: T.Find(table, d).Some? ==> T.Find(dt, d).Some?
  }

  // The index has the document under some word.
  ghost predicate HasPosting(mi: Table<Value>, d: Key)
    requires |mi| > 0
  {
    exists key: Key :: PostedUnder(mi, key, d)
  }

  ghost predicate PostedUnder(mi: Table<Value>, key: Key, d: Key)
    requires |mi| > 0
  {
    var r := T.Find(mi, key);
    r.Some? && r.value.value.Postings? && |r.value.value.table| > 0 && T.Find(r.value.value.table, d).Some?
  }

  // No two documents of the index have the same name.
  ghost predicate PostedApart(dt: Table<Value>, mi: Table<Value>)
    requires |dt| > 0 && |mi| > 0
  {
    forall d, e :: HasPosting(mi, d) && HasPosting(mi, e) && NameOf(dt, d) == NameOf(dt, e) ==> d == e
  }

  ghost predicate AllPosted(mi: Table<Value>, table: Table<Value>)
    requires |mi| > 0
  {
    |table| > 0 && forall d :: T.Find(table, d).Some? ==> HasPosting(mi, d)
  }

  // The counts are those of the documents that are in all the tables, by name.
  ghost predicate Represents(m: Counts, dt: Table<Value>, tables: seq<Table<Value>>)
    requires |dt| > 0 && AllTables(tables)
  {
    NonEmptyTables(tables);
    && (forall d :: InAll(tables, d) ==> NameOf(dt, d) in m && m[NameOf(dt, d)] == Occurrences(tables, d))
    && (forall name :: name in m ==> exists d :: InAll(tables, d) && NameOf(dt, d) == name)
  }

  lemma NonEmptyTables(tables: seq<Table<Value>>)
    requires AllTables(tables)
    ensures forall i :: 0 <= i < |tables| ==> |tables[i]| > 0
  {
    forall i | 0 <= i < |tables|
      ensures |tables[i]| > 0
    {
      DocTableWellFormed(tables[i]);
    }
  }

  lemma {:induction false} CountsOfPairs(dt: Table<Value>, mi: Table<Value>, kvs: seq<KV<Value>>)
    requires |dt| > 0 && |mi| > 0 && PostedApart(dt, mi) && T.DistinctKeys(kvs)
    requires forall kv :: kv in kvs ==> HasPosting(mi, kv.key)
    ensures forall kv :: kv in kvs ==>
            NameOf(dt, kv.key) in CountsOf(dt, kvs) && CountsOf(dt, kvs)[NameOf(dt, kv.key)] == CountIn(kv)
    ensures forall name :: name in CountsOf(dt, kvs) ==> exists kv :: kv in kvs && NameOf(dt, kv.key) == name
  {
    hide NameOf, T.Find, CountIn;
    if kvs != [] {
      var last, before := Last(kvs), CountsOf(dt, Init(kvs));
      assert kvs == Init(kvs) + [last];
      CountsOfPairs(dt, mi, Init(kvs));
      forall kv | kv in kvs
        ensures NameOf(dt, kv.key) in CountsOf(dt, kvs) && CountsOf(dt, kvs)[NameOf(dt, kv.key)] == CountIn(kv)
      {
        if kv != last {
          assert kv in Init(kvs);
        }
      }
      forall name | name in CountsOf(dt, kvs)
        ensures exists kv :: kv in kvs && NameOf(dt, kv.key) == name
      {
        if name in before {
          var kv :| kv in Init(kvs) && NameOf(dt, kv.key) == name;
          assert kv in kvs;
        } else {
          assert last in kvs && NameOf(dt, last.key) == name;
        }
      }
    }
  }

  function FoundCount(table: Table<Value>, doc: Key): int
    requires |table| > 0
  {
    match T.Find(table, doc)
    case None => 0
    case Some(kv) => CountIn(kv)
  }

  lemma InAllOf(tables: seq<Table<Value>>, table: Table<Value>, doc: Key)
    requires AllTables(tables) && IsPostingTable(table)
    ensures AllTables(tables + [table]) && |table| > 0 && forall i :: 0 <= i < |tables| ==> |tables[i]| > 0
    ensures InAll(tables + [table], doc) <==> InAll(tables, doc) && T.Find(table, doc).Some?
    ensures Occurrences(tables + [table], doc) == Occurrences(tables, doc) + FoundCount(table, doc)
  {
    hide T.Find, IsPostingTable;
    DocTableWellFormed(table);
    NonEmptyTables(tables);
    var all := tables + [table];
    assert Init(all) == tables;
    InAllSnoc(all, doc);
  }

  lemma InNone(doc: Key)
    ensures AllTables([]) && InAll([], doc) && Occurrences([], doc) == 0
  {
  }

  lemma OneWordRepresented(dt: Table<Value>, mi: Table<Value>, table: Table<Value>)
    requires |dt| > 0 && |mi| > 0 && PostedApart(dt, mi) && IsPostingTable(table) && AllPosted(mi, table)
    ensures AllTables([table]) && Represents(CountsOf(dt, T.AllPairs(table)), dt, [table])
  {
    hide InAll, Occurrences, T.Find, NameOf, CountsOf, T.AllPairs, IsPostingTable, CountIn;
    DocTableWellFormed(table);
    var kvs := T.AllPairs(table);
    T.AllPairsDistinct(table, |table|);
    forall kv | kv in kvs
      ensures T.Find(table, kv.key) == Some(kv)
    {
      T.AllPairsAreFound(table, kv);
    }
    CountsOfPairs(dt, mi, kvs);
    assert [] + [table] == [table];
    forall d: Key
      ensures InAll([table], d) <==> T.Find(table, d).Some?
      ensures InAll([table], d) ==> Occurrences([table], d) == CountIn(T.Find(table, d).value)
      ensures InAll([table], d) ==> T.Find(table, d).value in kvs && T.Find(table, d).value.key == d
    {
      InNone(d);
      InAllOf([], table, d);
      if T.Find(table, d).Some? {
        T.FoundKey(table, d);
        T.AllPairsAreFound(table, T.Find(table, d).value);
      }
    }
  }

  lemma IntersectRepresents(dt: Table<Value>, mi: Table<Value>, m: Counts, tables: seq<Table<Value>>, more: Counts,
                            table: Table<Value>)
    requires |dt| > 0 && |mi| > 0 && PostedApart(dt, mi) && AllTables(tables) && IsPostingTable(table)
    requires AllPosted(mi, table) && forall d :: InAll(tables, d) ==> HasPosting(mi, d)
    requires Represents(m, dt, tables) && AllTables([table]) && Represents(more, dt, [table])
    ensures AllTables(tables + [table]) && Represents(Intersect(m, more), dt, tables + [table])
  {
    hide InAll, Occurrences, T.Find, NameOf, IsPostingTable, CountIn, AllTables;
    InNone(0);
    assert [] + [table] == [table];
    InAllOf(tables, table, 0);
    var all, both := tables + [table], Intersect(m, more);
    forall d: Key
      ensures InAll([table], d) <==> T.Find(table, d).Some?
      ensures InAll(all, d) <==> InAll(tables, d) && InAll([table], d)
      ensures InAll(all, d) ==> Occurrences(all, d) == Occurrences(tables, d) + Occurrences([table], d)
    {
      InNone(d);
      InAllOf([], table, d);
      InAllOf(tables, table, d);
    }
    forall name | name in both
      ensures exists d :: InAll(all, d) && NameOf(dt, d) == name
    {
      var d :| InAll(tables, d) && NameOf(dt, d) == name;
      var e :| InAll([table], e) && NameOf(dt, e) == name;
      assert HasPosting(mi, d) && HasPosting(mi, e);
      assert d == e;
    }
  }

  // No other word in the index has the hash of this one.
  ghost predicate NoCollision(mi: Table<Value>, word: seq<Byte>)
    requires |mi| > 0
  {
    var r := T.Find(mi, FnvHash(word));
    r.Some? && r.value.value.Postings? ==> r.value.value.word == word
  }

  // Every posted document is in the doctable.
  ghost predicate AllNamed(dt: Table<Value>, mi: Table<Value>)
    requires |dt| > 0 && |mi| > 0
  {
    forall key :: T.Find(mi, key).Some? && T.Find(mi, key).value.value.Postings? ==>
      Named(dt, T.Find(mi, key).value.value.table)
  }

  // What the comparison of the two searches takes for granted.
  ghost predicate Comparable(dt: Table<Value>, mi: Table<Value>, query: seq<seq<Byte>>)
  {
    && |dt| > 0 && IsMemIndex(mi) && |mi| > 0 && PostedApart(dt, mi) && AllNamed(dt, mi)
    && forall i :: 0 <= i < |query| ==> NoCollision(mi, query[i])
  }

  // When no two names are the same at all, it is so for the documents of the index.
  lemma ApartIsPostedApart(dt: Table<Value>, mi: Table<Value>)
    requires |dt| > 0 && |mi| > 0 && NamesApart(dt) && AllNamed(dt, mi)
    ensures PostedApart(dt, mi)
  {
    hide T.Find, NameOf;
    forall d, e | HasPosting(mi, d) && HasPosting(mi, e) && NameOf(dt, d) == NameOf(dt, e)
      ensures d == e
    {
      var k, l :| PostedUnder(mi, k, d) && PostedUnder(mi, l, e);
      assert Named(dt, T.Find(mi, k).value.value.table) && Named(dt, T.Find(mi, l).value.value.table);
    }
  }

  lemma WordTables(dt: Table<Value>, mi: Table<Value>, query: seq<seq<Byte>>, i: nat)
    requires Comparable(dt, mi, query) && i < |query|
    ensures var r := PostingsOf(mi, query[i]);
            && HashPostings(mi, query[i]) == r
            && (r.Some? ==> IsPostingTable(r.value) && AllPosted(mi, r.value))
  {
    hide T.Find, FnvHash, IsPostingTable, Named, AllPosted;
    Pairs(mi, FnvHash(query[i]));
    var r := PostingsOf(mi, query[i]);
    if r.Some? {
      DocTableWellFormed(r.value);
      WordIsPosted(mi, query[i]);
    }
  }

  lemma WordIsPosted(mi: Table<Value>, word: seq<Byte>)
    requires |mi| > 0 && PostingsOf(mi, word).Some? && |PostingsOf(mi, word).value| > 0
    ensures AllPosted(mi, PostingsOf(mi, word).value)
  {
    hide T.Find, FnvHash;
    forall d | T.Find(PostingsOf(mi, word).value, d).Some?
      ensures HasPosting(mi, d)
    {
      assert PostedUnder(mi, FnvHash(word), d);
    }
  }

  lemma InAllPosted(dt: Table<Value>, mi: Table<Value>, query: seq<seq<Byte>>, n: nat, doc: Key)
    requires Comparable(dt, mi, query) && 1 <= n <= |query| && TablesFor(mi, query[..n]).Some?
    ensures AllTables(TablesFor(mi, query[..n]).value)
    ensures InAll(TablesFor(mi, query[..n]).value, doc) ==> HasPosting(mi, doc)
  {
    hide T.Find, FnvHash, Comparable, TablesFor;
    ComparableParts(dt, mi, query);
    TablesNonEmpty(mi, query[..n]);
    var tables := TablesFor(mi, query[..n]).value;
    WordTables(dt, mi, query, 0);
    assert HashPostings(mi, query[..n][0]) == Some(tables[0]);
  }

  lemma ComparableParts(dt: Table<Value>, mi: Table<Value>, query: seq<seq<Byte>>)
    requires Comparable(dt, mi, query)
    ensures |dt| > 0 && |mi| > 0 && IsMemIndex(mi) && PostedApart(dt, mi)
  {
  }

  // The tables of the first n words are the first n tables.
  lemma {:induction false} TablesPrefix(mi: Table<Value>, query: seq<seq<Byte>>, n: nat)
    requires |mi| > 0 && n <= |query| && TablesFor(mi, query).Some?
    ensures TablesFor(mi, query[..n]) == Some(TablesFor(mi, query).value[..n])
  {
    hide HashPostings;
    if n == |query| {
      assert query[..n] == query && TablesFor(mi, query).value[..n] == TablesFor(mi, query).value;
    } else {
      TablesPrefix(mi, Init(query), n);
      assert Init(query)[..n] == query[..n];
      assert TablesFor(mi, query).value[..n] == TablesFor(mi, Init(query)).value[..n];
    }
  }

  // The answer of the file, by name, is the answer of the tables, by document.
  ghost predicate Answers(r: Counts, dt: Table<Value>, mi: Table<Value>, query: seq<seq<Byte>>)
    requires |dt| > 0 && IsMemIndex(mi) && |mi| > 0
  {
    match TablesFor(mi, query)
    case None => r == map[]
    case Some(tables) =>
      TablesNonEmpty(mi, query);
      Represents(r, dt, tables)
  }

  lemma InAllPrefix(tables: seq<Table<Value>>, n: nat, doc: Key)
    requires AllTables(tables) && n <= |tables|
    ensures AllTables(tables[..n]) && (InAll(tables, doc) ==> InAll(tables[..n], doc))
  {
    hide T.Find;
  }

  lemma EmptyAnswers(dt: Table<Value>, mi: Table<Value>, query: seq<seq<Byte>>, n: nat)
    requires |dt| > 0 && IsMemIndex(mi) && |mi| > 0 && n <= |query| && Answers(map[], dt, mi, query[..n])
    ensures Answers(map[], dt, mi, query)
  {
    hide T.Find, Occurrences, NameOf, TablesFor;
    if TablesFor(mi, query).Some? {
      TablesPrefix(mi, query, n);
      TablesNonEmpty(mi, query);
      TablesNonEmpty(mi, query[..n]);
      var tables := TablesFor(mi, query).value;
      forall d: Key
        ensures !InAll(tables, d)
      {
        InAllPrefix(tables, n, d);
      }
    }
  }

  lemma TablesSnoc(mi: Table<Value>, query: seq<seq<Byte>>, n: nat)
    requires |mi| > 0 && n < |query|
    ensures var now, more := TablesFor(mi, query[..n]), HashPostings(mi, query[n]);
            TablesFor(mi, query[..n + 1]) == if now.None? || more.None? then None else Some(now.value + [more.value])
  {
    hide HashPostings;
    PrefixSnoc(query, n);
  }

  lemma {:induction false} RefinedAnswers(dt: Table<Value>, mi: Table<Value>, m: Counts, query: seq<seq<Byte>>, i: nat)
    requires Comparable(dt, mi, query) && |dt| > 0 && |mi| > 0 && IsMemIndex(mi)
    requires 1 <= i <= |query| && TablesFor(mi, query[..i]).Some? && Answers(m, dt, mi, query[..i])
    ensures Answers(RefinedFrom(dt, mi, m, query, i), dt, mi, query)
    decreases |query| - i
  {
    hide Comparable, T.Find, FnvHash, TablesFor, Represents, CountsOf, T.AllPairs, IsPostingTable,
         PostingsOf, HashPostings, Named, Intersect, IsMemIndex, InAll;
    ComparableParts(dt, mi, query);
    if i == |query| {
      assert query[..i] == query;
    } else {
      WordTables(dt, mi, query, i);
      TablesSnoc(mi, query, i);
      var table := PostingsOf(mi, query[i]);
      if table.None? {
        EmptyAnswers(dt, mi, query, i + 1);
      } else {
        var tables := TablesFor(mi, query[..i]).value;
        var more := CountsOf(dt, T.AllPairs(table.value));
        InAllPosted(dt, mi, query, i, 0);
        forall d: Key
          ensures InAll(tables, d) ==> HasPosting(mi, d)
        {
          InAllPosted(dt, mi, query, i, d);
        }
        OneWordRepresented(dt, mi, table.value);
        IntersectRepresents(dt, mi, m, tables, more, table.value);
        var both := Intersect(m, more);
        if both == map[] {
          EmptyAnswers(dt, mi, query, i + 1);
        } else {
          RefinedAnswers(dt, mi, both, query, i + 1);
        }
      }
    }
  }

  lemma FileAnswers(dt: Table<Value>, mi: Table<Value>, query: seq<seq<Byte>>)
    requires Comparable(dt, mi, query) && |dt| > 0 && |mi| > 0 && IsMemIndex(mi) && query != []
    ensures Answers(FileAnswer(dt, mi, query), dt, mi, query)
  {
    hide Comparable, T.Find, FnvHash, TablesFor, Represents, CountsOf, T.AllPairs, IsPostingTable,
         PostingsOf, HashPostings, Named, RefinedFrom, IsMemIndex;
    ComparableParts(dt, mi, query);
    WordTables(dt, mi, query, 0);
    TablesNothing(mi, query);
    TablesSnoc(mi, query, 0);
    var table := PostingsOf(mi, query[0]);
    if table.None? {
      EmptyAnswers(dt, mi, query, 1);
    } else {
      OneWordRepresented(dt, mi, table.value);
      assert [] + [table.value] == [table.value];
      RefinedAnswers(dt, mi, CountsOf(dt, T.AllPairs(table.value)), query, 1);
    }
  }

  lemma TablesNothing(mi: Table<Value>, query: seq<seq<Byte>>)
    requires |mi| > 0
    ensures TablesFor(mi, query[..0]) == Some([])
  {
  }

  // ----- the two searches agree -----

  // Search results with document ids replaced by names.
  function ByName(dt: Table<Value>, rs: seq<SearchResult>): (r: seq<QueryResult>)
    requires |dt| > 0
    ensures |r| == |rs|
    ensures forall i :: 0 <= i < |rs| ==> r[i] == QueryResult(NameOf(dt, rs[i].docId), rs[i].rank)
  {
    if rs == [] then [] else ByName(dt, Init(rs)) + [QueryResult(NameOf(dt, Last(rs).docId), Last(rs).rank)]
  }

  // What memory has found, by document name.
  function FoundByName(dt: Table<Value>, rs: Option<seq<SearchResult>>): multiset<QueryResult>
    requires |dt| > 0
  {
    match rs case None => multiset{} case Some(sorted) => multiset(ByName(dt, sorted))
  }

  lemma {:induction false} DistinctToSet<X>(s: seq<X>)
    requires forall i, j :: 0 <= i < j < |s| ==> s[i] != s[j]
    ensures multiset(s) == multiset(set x | x in s)
  {
    if s != [] {
      var before, last := Init(s), Last(s);
      DistinctToSet(before);
      assert s == before + [last];
      assert (set x | x in s) == (set x | x in before) + {last};
    }
  }

  lemma RepresentedResults(dt: Table<Value>, mi: Table<Value>, m: Counts, tables: seq<Table<Value>>,
                           rs: seq<SearchResult>)
    requires |dt| > 0 && |mi| > 0 && AllTables(tables) && Represents(m, dt, tables) && PostedApart(dt, mi)
    requires forall d :: InAll(tables, d) ==> HasPosting(mi, d)
    requires DistinctDocs(rs)
    requires forall sr :: sr in rs <==>
             InAll(tables, sr.docId) && sr.rank == (NonEmptyTables(tables); Occurrences(tables, sr.docId))
    ensures ResultsOf(m) == multiset(ByName(dt, rs))
  {
    hide InAll, Occurrences, T.Find, NameOf, ByName, AllTables;
    NonEmptyTables(tables);
    var named := ByName(dt, rs);
    forall i, j | 0 <= i < j < |named|
      ensures named[i] != named[j]
    {
      assert rs[i] in rs && rs[j] in rs;
    }
    DistinctToSet(named);
    var results := set name | name in m :: QueryResult(name, m[name]);
    forall q
      ensures q in named <==> q in results
    {
      if q in named {
        var i :| 0 <= i < |named| && named[i] == q;
        assert rs[i] in rs;
      }
      if q in results {
        var d :| InAll(tables, d) && NameOf(dt, d) == q.documentName;
        var sr := SearchResult(d, Occurrences(tables, d));
        assert sr in rs;
        var i :| 0 <= i < |rs| && rs[i] == sr;
        assert named[i] == q;
      }
    }
    assert results == set x | x in named;
  }

  // What MemIndex_Search returns for the query, sorted in any way it may be.
  ghost predicate Returns(mi: Table<Value>, query: seq<seq<Byte>>, rs: Option<seq<SearchResult>>)
    requires IsMemIndex(mi)
  {
    match Answer(mi, query)
    case None => rs.None?
    case Some(unsorted) => rs.Some? && Ordered(CompareRanks, false, rs.value)
                           && StablePermutation(CompareRanks, unsorted, rs.value)
  }

  // The file and the index in memory give the same documents with the same ranks;
  // where memory answers with the null pointer, the file answers with nothing.
  lemma FileAgreesWithMemory(dt: Table<Value>, mi: Table<Value>, query: seq<seq<Byte>>, rs: Option<seq<SearchResult>>)
    requires Comparable(dt, mi, query) && |dt| > 0 && |mi| > 0 && IsMemIndex(mi) && query != []
    requires Returns(mi, query, rs)
    ensures ResultsOf(FileAnswer(dt, mi, query)) == FoundByName(dt, rs)
  {
    hide Comparable, T.Find, FnvHash, TablesFor, Represents, IsPostingTable, HashPostings,
         FileAnswer, IsMemIndex, InAll, Occurrences, Ordered, StablePermutation;
    ComparableParts(dt, mi, query);
    FileAnswers(dt, mi, query);
    assert query[..|query|] == query;
    var m := FileAnswer(dt, mi, query);
    if TablesFor(mi, query).Some? {
      var tables := TablesFor(mi, query).value;
      InAllPosted(dt, mi, query, |query|, 0);
      forall d: Key
        ensures InAll(tables, d) ==> HasPosting(mi, d)
      {
        InAllPosted(dt, mi, query, |query|, d);
      }
      if rs.Some? {
        SearchIsExact(mi, query, rs.value);
        RepresentedResults(dt, mi, m, tables, rs.value);
      } else {
        SearchFails(mi, query);
        forall d: Key
          ensures !InAll(tables, d)
        {
          assert !IsMatch(mi, query, d);
        }
        NothingRepresented(dt, m, tables);
      }
    } else {
      NoResults();
    }
  }

  lemma NothingRepresented(dt: Table<Value>, m: Counts, tables: seq<Table<Value>>)
    requires |dt| > 0 && AllTables(tables) && Represents(m, dt, tables) && forall d :: !InAll(tables, d)
    ensures m == map[] && ResultsOf(m) == multiset{}
  {
    hide InAll, Occurrences, NameOf;
    assert forall name :: name !in m;
    NoResults();
  }

  lemma NoResults()
    ensures ResultsOf(map[]) == multiset{}
  {
    var m: Counts := map[];
    assert (set name | name in m :: QueryResult(name, m[name])) == {};
  }

  // ----- from the tables in memory to the file and back -----

  // What WriteIndex asks of the tables it is given, and reports as failure.  The names
  // may be any strings of a length that fits, the words must fit.
  ghost predicate Writable(dt: Table<Value>, mi: Table<Value>)
  {
    && IsDocTable(dt) && IsMemIndex(mi)
    && FitsTable(dt) && EncodableTable(mi) && !TableHasEmptyWord(mi)
    && HEADER_SIZE + TableSize(dt) + TableSize(mi) + HEADER_SIZE <= MAX_INT32
  }

  // The readers find both tables in a finished file; the names are those on disk.
  lemma WrittenIndexOpens(dt: Table<Value>, mi: Table<Value>, validate: bool)
    requires Writable(dt, mi)
    ensures var ix := Index(IndexBytes(dt, mi), 16, |dt|, 16 + TableSize(dt), |mi|);
            Opened(IndexBytes(dt, mi), validate) == Some(ix) && OpenOn(ix, TableOnDisk(dt), mi)
  {
    hide *;
    WritableParts(dt, mi);
    var disk := TableOnDisk(dt);
    DocTableOnDisk(dt);
    IndexOnDisk(dt, mi);
    OnDiskEncodable(dt);
    var s := IndexBytes(disk, mi);
    HeaderSizeValue();
    HeaderLimits();
    WrittenIndexAccepted(disk, mi, validate);
    WrittenHeader(disk, mi);
    HeaderForValue(TablesBytes(disk, mi), TableSize(disk), TableSize(mi));
    RegionsHeld(disk, mi);
    NumBucketsOfTable(s, 16, disk);
    NumBucketsOfTable(s, 16 + TableSize(disk), mi);
    SignedOffset(16 + TableSize(disk));
    OpenedValue(s, validate);
    OpenOnIntro(Index(s, 16, |disk|, 16 + TableSize(disk), |mi|), disk, mi);
  }

  lemma WritableParts(dt: Table<Value>, mi: Table<Value>)
    requires Writable(dt, mi)
    ensures IsDocTable(dt) && IsMemIndex(mi) && |dt| > 0 && |mi| > 0
    ensures EncodableTable(mi) && !TableHasEmptyWord(dt) && !TableHasEmptyWord(mi) && NamelessTable(mi)
    ensures HEADER_SIZE + TableSize(dt) + TableSize(mi) + HEADER_SIZE <= MAX_INT32
    ensures 0 <= TableSize(dt) && 0 <= TableSize(mi)
  {
    hide EncodableTable, TableHasEmptyWord, TableSize;
    NoWords(dt);
    NoNames(mi);
  }

  lemma NoWords(dt: Table<Value>)
    requires IsDocTable(dt)
    ensures !TableHasEmptyWord(dt)
  {
    forall b, j | 0 <= b < |dt| && 0 <= j < |dt[b].kvs|
      ensures !HasEmptyWord(dt[b].kvs[j])
    {
      assert dt[b].kvs[j].value.DocName?;
    }
  }

  // A document or index table has no names in it.
  lemma NoNamesOfDocuments(t: Table<Value>)
    requires IsPostingTable(t)
    ensures NamelessTable(t)
  {
    forall b, j | 0 <= b < |t| && 0 <= j < |t[b].kvs|
      ensures Nameless(t[b].kvs[j])
    {
      assert t[b].kvs[j].value.Positions?;
    }
  }

  lemma NoNames(mi: Table<Value>)
    requires IsMemIndex(mi)
    ensures NamelessTable(mi)
  {
    hide NamelessTable, IsPostingTable;
    forall b, j | 0 <= b < |mi| && 0 <= j < |mi[b].kvs|
      ensures Nameless(mi[b].kvs[j])
    {
      assert IsPostings(mi[b].kvs[j]);
      NoNamesOfDocuments(mi[b].kvs[j].value.table);
    }
    NamelessIntro(mi);
  }

  lemma NamelessIntro(t: Table<Value>)
    requires forall b, j :: 0 <= b < |t| && 0 <= j < |t[b].kvs| ==> Nameless(t[b].kvs[j])
    ensures NamelessTable(t)
  {
    hide Nameless;
  }

  // The doctable on disk has the same documents under the names on disk.
  lemma DocTableOnDisk(dt: Table<Value>)
    requires IsDocTable(dt)
    ensures |dt| > 0 && IsDocTable(TableOnDisk(dt)) && |TableOnDisk(dt)| == |dt|
    ensures forall d: Key :: T.Find(TableOnDisk(dt), d) ==
              match T.Find(dt, d) case None => None case Some(kv) => Some(OnDisk(kv))
  {
    var disk := TableOnDisk(dt);
    DocTableWellFormed(dt);
    hide NameOnDisk, T.FindIn, TableOnDisk, BucketOnDisk;
    forall b | 0 <= b < |dt|
      ensures T.DistinctKeys(disk[b].kvs) && T.InBucket(disk[b].kvs, b, |dt|)
    {
      assert T.DistinctKeys(dt[b].kvs) && T.InBucket(dt[b].kvs, b, |dt|);
    }
    forall d: Key
      ensures T.Find(disk, d) == match T.Find(dt, d) case None => None case Some(kv) => Some(OnDisk(kv))
    {
      FindInOnDisk(dt[T.BucketNum(dt, d)].kvs, d);
    }
  }

  lemma {:induction false} FindInOnDisk(kvs: seq<KV<Value>>, d: Key)
    ensures T.FindIn(BucketOnDisk(kvs), d) == match T.FindIn(kvs, d) case None => None case Some(kv) => Some(OnDisk(kv))
  {
    hide OnDisk, BucketOnDisk;
    if kvs != [] {
      FindInOnDisk(kvs[1..], d);
      assert BucketOnDisk(kvs)[1..] == BucketOnDisk(kvs[1..]);
    }
  }

  lemma OpenOnIntro(ix: Index, dt: Table<Value>, mi: Table<Value>)
    requires IsDocTable(dt) && IsMemIndex(mi) && |dt| > 0 && |mi| > 0
    requires HoldsTable(ix.contents, ix.dtOffset, dt) && ix.dtBuckets == |dt|
    requires HoldsTable(ix.contents, ix.itOffset, mi) && ix.itBuckets == |mi|
    ensures OpenOn(ix, dt, mi)
  {
  }

  lemma RegionsHeld(dt: Table<Value>, mi: Table<Value>)
    requires EncodableTable(dt) && EncodableTable(mi) && !TableHasEmptyWord(dt) && !TableHasEmptyWord(mi)
    requires NamelessTable(mi) && HEADER_SIZE + TableSize(dt) + TableSize(mi) <= MAX_INT32
    ensures HoldsTable(IndexBytes(dt, mi), 16, dt) && HoldsTable(IndexBytes(dt, mi), 16 + TableSize(dt), mi)
  {
    hide *;
    IndexBytesValue(dt, mi);
    IndexOnDisk(dt, mi);
    OnDiskEncodable(dt);
    HeaderSizeValue();
    var body := TablesBytes(dt, mi);
    var header := HeaderFor(body, TableSize(dt), TableSize(mi)).ToDisk();
    WholeHeld(IndexBytes(dt, mi));
    HoldsConcat(IndexBytes(dt, mi), 0, header, body);
    HoldsConcat(IndexBytes(dt, mi), 16, TableCells(dt, 16), TableCells(mi, 16 + TableSize(dt)));
    HoldsTableIntro(IndexBytes(dt, mi), 16, dt);
    HoldsTableIntro(IndexBytes(dt, mi), 16 + TableSize(dt), mi);
  }

  lemma WholeHeld(s: seq<Byte>)
    ensures Holds(s, 0, s)
  {
  }

  // A name that the file gives back as it was.
  predicate Survives(name: Name)
  {
    Ascii(name) && |name| <= MAX_INT16
  }

  lemma NameOfOnDisk(dt: Table<Value>, d: Key)
    requires IsDocTable(dt)
    ensures |dt| > 0 && |TableOnDisk(dt)| > 0 && NameOf(TableOnDisk(dt), d) == NameOnDisk(NameOf(dt, d))
    ensures Survives(NameOf(TableOnDisk(dt), d))
    ensures NameOf(TableOnDisk(dt), d) == NameOf(dt, d) <==> Survives(NameOf(dt, d))
  {
    hide T.Find, NameOnDisk, TableOnDisk;
    DocTableOnDisk(dt);
    DocNameFound(dt, d);
    NameOnDiskFits(NameOf(dt, d));
    NameSurvivesIff(NameOf(dt, d));
    NameOnDiskFits([]);
    NameSurvivesIff([]);
  }

  // On disk only the names may become the same.
  lemma ComparableOnDisk(dt: Table<Value>, mi: Table<Value>, query: seq<seq<Byte>>)
    requires IsDocTable(dt) && Comparable(dt, mi, query) && |TableOnDisk(dt)| > 0 && PostedApart(TableOnDisk(dt), mi)
    ensures Comparable(TableOnDisk(dt), mi, query)
  {
    hide T.Find, IsMemIndex, PostedApart, TableOnDisk, IsDocTable, FnvHash;
    DocTableOnDisk(dt);
  }

  // What is found has the same names on disk exactly when all of them survive.
  lemma NamesSurviveIff(dt: Table<Value>, rs: Option<seq<SearchResult>>)
    requires IsDocTable(dt)
    ensures |dt| > 0 && |TableOnDisk(dt)| > 0
    ensures FoundByName(TableOnDisk(dt), rs) == FoundByName(dt, rs) <==>
            rs.None? || forall sr :: sr in rs.value ==> Survives(NameOf(dt, sr.docId))
  {
    hide IsDocTable, NameOf, TableOnDisk, ByName, Survives;
    NameOfOnDisk(dt, 0);
    if rs.Some? {
      var disk, there, here := TableOnDisk(dt), ByName(TableOnDisk(dt), rs.value), ByName(dt, rs.value);
      forall i | 0 <= i < |rs.value|
        ensures Survives(there[i].documentName)
        ensures there[i] == here[i] <==> Survives(NameOf(dt, rs.value[i].docId))
      {
        NameOfOnDisk(dt, rs.value[i].docId);
      }
      if i :| 0 <= i < |rs.value| && !Survives(NameOf(dt, rs.value[i].docId)) {
        assert here[i] in multiset(here);
        assert here[i] !in there;
        assert rs.value[i] in rs.value;
      } else {
        assert there == here;
      }
    }
  }

  // Writing an index to a file and opening the file changes no answer, except for names
  // that do not survive.
  lemma SearchSurvivesWriting(dt: Table<Value>, mi: Table<Value>, query: seq<seq<Byte>>, rs: Option<seq<SearchResult>>,
                              validate: bool)
    requires Writable(dt, mi) && Comparable(TableOnDisk(dt), mi, query) && query != []
    requires IsMemIndex(mi) && Returns(mi, query, rs)
    ensures |dt| > 0 && |TableOnDisk(dt)| > 0
    ensures var ix := Opened(IndexBytes(dt, mi), validate);
            && ix.Some? && IndexAnswer(ix.value, query).Some?
            && var results := ResultsOf(IndexAnswer(ix.value, query).value);
            && results == FoundByName(TableOnDisk(dt), rs)
            && (results == FoundByName(dt, rs) <==>
                rs.None? || forall sr :: sr in rs.value ==> Survives(NameOf(dt, sr.docId)))
  {
    hide *;
    WritableParts(dt, mi);
    WrittenIndexOpens(dt, mi, validate);
    var ix := Opened(IndexBytes(dt, mi), validate).value;
    AnswerReadBack(ix, TableOnDisk(dt), mi, query);
    FileAgreesWithMemory(TableOnDisk(dt), mi, query, rs);
    NamesSurviveIff(dt, rs);
  }

  datatype Corpus = Corpus(dt: Table<Value>, mi: Table<Value>, found: Option<seq<SearchResult>>)

  ghost predicate Searched(c: Corpus, query: seq<seq<Byte>>)
  {
    Writable(c.dt, c.mi) && Comparable(TableOnDisk(c.dt), c.mi, query) && Returns(c.mi, query, c.found)
  }

  ghost predicate AllSearched(cs: seq<Corpus>, query: seq<seq<Byte>>)
  {
    forall i :: 0 <= i < |cs| ==> Searched(cs[i], query)
  }

  function FilesOf(cs: seq<Corpus>): (files: seq<seq<Byte>>)
    ensures |files| == |cs|
  {
    if cs == [] then [] else FilesOf(Init(cs)) + [IndexBytes(Last(cs).dt, Last(cs).mi)]
  }

  // The results of searching every index in memory, by document name on disk.
  ghost function AllByName(cs: seq<Corpus>): multiset<QueryResult>
  {
    if cs == [] then multiset{}
    else
      var c := Last(cs);
      AllByName(Init(cs)) + if |c.dt| == 0 then multiset{} else FoundByName(TableOnDisk(c.dt), c.found)
  }

  // A query over many files is the union of the queries over many indexes.
  lemma {:induction false} QueryOverFiles(cs: seq<Corpus>, query: seq<seq<Byte>>, validate: bool)
    requires AllSearched(cs, query) && query != []
    ensures var indices := AllOpened(FilesOf(cs), validate);
            indices.Some? && AllResults(indices.value, query) == Some(AllByName(cs))
    decreases |cs|
  {
    hide *;
    if cs == [] {
      NoFiles(query, validate);
    } else {
      var c := Last(cs);
      SearchedParts(cs, query);
      QueryOverFiles(Init(cs), query, validate);
      SearchSurvivesWriting(c.dt, c.mi, query, c.found, validate);
      LastFile(cs, query, validate);
    }
  }

  lemma NoFiles(query: seq<seq<Byte>>, validate: bool)
    requires query != []
    ensures AllOpened(FilesOf([]), validate) == Some([]) && AllResults([], query) == Some(AllByName([]))
  {
  }

  lemma LastFile(cs: seq<Corpus>, query: seq<seq<Byte>>, validate: bool)
    requires cs != [] && query != [] && AllOpened(FilesOf(Init(cs)), validate).Some?
    requires AllResults(AllOpened(FilesOf(Init(cs)), validate).value, query) == Some(AllByName(Init(cs)))
    requires var c := Last(cs); var ix := Opened(IndexBytes(c.dt, c.mi), validate);
             && |c.dt| > 0 && ix.Some? && IndexAnswer(ix.value, query).Some?
             && ResultsOf(IndexAnswer(ix.value, query).value)
                == FoundByName(TableOnDisk(c.dt), c.found)
    ensures var indices := AllOpened(FilesOf(cs), validate);
            indices.Some? && AllResults(indices.value, query) == Some(AllByName(cs))
  {
    hide *;
    var c, ix := Last(cs), Opened(IndexBytes(Last(cs).dt, Last(cs).mi), validate).value;
    var before := AllOpened(FilesOf(Init(cs)), validate).value;
    FilesLast(cs);
    AllOpenedLast(FilesOf(cs), validate);
    AllResultsLast(before, ix, query);
  }

  lemma FilesLast(cs: seq<Corpus>)
    requires cs != []
    ensures FilesOf(cs) != [] && Init(FilesOf(cs)) == FilesOf(Init(cs))
    ensures var c := Last(cs);
            && Last(FilesOf(cs)) == IndexBytes(c.dt, c.mi)
            && (|c.dt| > 0 ==>
                  AllByName(cs) == AllByName(Init(cs)) +
                  FoundByName(TableOnDisk(c.dt), c.found))
  {
    hide IndexBytes, ByName;
  }

  lemma AllOpenedLast(files: seq<seq<Byte>>, validate: bool)
    requires files != [] && AllOpened(Init(files), validate).Some? && Opened(Last(files), validate).Some?
    ensures AllOpened(files, validate)
            == Some(AllOpened(Init(files), validate).value + [Opened(Last(files), validate).value])
  {
    hide Opened;
  }

  lemma AllResultsLast(before: seq<Index>, ix: Index, query: seq<seq<Byte>>)
    requires query != [] && AllResults(before, query).Some? && IndexAnswer(ix, query).Some?
    ensures AllResults(before + [ix], query)
         == Some(AllResults(before, query).value + ResultsOf(IndexAnswer(ix, query).value))
  {
    hide IndexAnswer, ResultsOf;
    assert Init(before + [ix]) == before;
  }

  lemma SearchedParts(cs: seq<Corpus>, query: seq<seq<Byte>>)
    requires cs != [] && AllSearched(cs, query)
    ensures AllSearched(Init(cs), query) && |Init(cs)| < |cs|
    ensures var c := Last(cs);
            && Writable(c.dt, c.mi) && Comparable(TableOnDisk(c.dt), c.mi, query) && IsMemIndex(c.mi)
            && Returns(c.mi, query, c.found)
  {
    hide Writable, Comparable, Returns;
    assert Searched(cs[|cs| - 1], query);
    WritableParts(cs[|cs| - 1].dt, cs[|cs| - 1].mi);
  }

  // ----- without the assumption on hashes -----

  // A word whose hash leads to another word is no word of the file.
  lemma ClashIsMissing(mi: Table<Value>, word: seq<Byte>)
    requires |mi| > 0 && IsMemIndex(mi) && !NoCollision(mi, word)
    ensures PostingsOf(mi, word) == None
  {
    hide T.Find, FnvHash;
    Pairs(mi, FnvHash(word));
  }

  lemma {:induction false} MissingEmpties(dt: Table<Value>, mi: Table<Value>, m: Counts, query: seq<seq<Byte>>, i: nat,
                                          k: nat)
    requires |dt| > 0 && |mi| > 0 && i <= k < |query| && PostingsOf(mi, query[k]) == None
    ensures RefinedFrom(dt, mi, m, query, i) == map[]
    decreases k - i
  {
    hide PostingsOf, CountsOf, Intersect;
    if i < k {
      var more := CountsOfWord(dt, mi, query[i]);
      if more.Some? {
        MissingEmpties(dt, mi, Intersect(m, more.value), query, i + 1, k);
      }
    }
  }

  // One missing word, wherever it is in the query, empties the answer of the file.
  lemma MissingWordEmpties(dt: Table<Value>, mi: Table<Value>, query: seq<seq<Byte>>, k: nat)
    requires |dt| > 0 && |mi| > 0 && k < |query| && PostingsOf(mi, query[k]) == None
    ensures FileAnswer(dt, mi, query) == map[]
  {
    hide PostingsOf, CountsOf, RefinedFrom;
    var m := CountsOfWord(dt, mi, query[0]);
    if m.Some? {
      MissingEmpties(dt, mi, m.value, query, 1, k);
    }
  }

  ghost predicate QueryHasNoCollision(mi: Table<Value>, query: seq<seq<Byte>>)
    requires |mi| > 0
  {
    forall i :: 0 <= i < |query| ==> NoCollision(mi, query[i])
  }

  lemma ComparableWithQuery(dt: Table<Value>, mi: Table<Value>, query: seq<seq<Byte>>)
    requires Comparable(dt, mi, [])
    ensures |mi| > 0 && (QueryHasNoCollision(mi, query) ==> Comparable(dt, mi, query))
  {
    hide NoCollision, PostedApart, AllNamed, IsMemIndex;
  }

  lemma FoundNothing(dt: Table<Value>, rs: Option<seq<SearchResult>>)
    requires |dt| > 0
    ensures FoundByName(dt, rs) == multiset{} <==> rs.None? || rs.value == []
  {
    if rs.Some? && rs.value != [] {
      assert ByName(dt, rs.value)[0] in FoundByName(dt, rs);
    }
  }

  // The reader compares words, memory only hashes.  For any query whatever, they agree
  // exactly when memory has found nothing or the hash of every query word leads to the
  // word itself.
  lemma AgreesIff(dt: Table<Value>, mi: Table<Value>, query: seq<seq<Byte>>, rs: Option<seq<SearchResult>>)
    requires Comparable(dt, mi, []) && |dt| > 0 && |mi| > 0 && IsMemIndex(mi) && query != [] && Returns(mi, query, rs)
    ensures ResultsOf(FileAnswer(dt, mi, query)) == FoundByName(dt, rs) <==>
            rs.None? || rs.value == [] || forall i :: 0 <= i < |query| ==> NoCollision(mi, query[i])
  {
    hide *;
    ComparableWithQuery(dt, mi, query);
    FoundNothing(dt, rs);
    if QueryHasNoCollision(mi, query) {
      NoCollisionAt(mi, query);
      FileAgreesWithMemory(dt, mi, query, rs);
    } else {
      var k := Collision(mi, query);
      ClashIsMissing(mi, query[k]);
      MissingWordEmpties(dt, mi, query, k);
      NoResults();
    }
  }

  // The same for the file that was written: its answer is that of memory exactly then.
  lemma WrittenAgreesIff(dt: Table<Value>, mi: Table<Value>, query: seq<seq<Byte>>, rs: Option<seq<SearchResult>>,
                         validate: bool)
    requires Writable(dt, mi) && Comparable(TableOnDisk(dt), mi, []) && query != []
    requires |TableOnDisk(dt)| > 0 && |mi| > 0 && IsMemIndex(mi) && Returns(mi, query, rs)
    ensures var ix := Opened(IndexBytes(dt, mi), validate);
            && ix.Some? && IndexAnswer(ix.value, query).Some?
            && (ResultsOf(IndexAnswer(ix.value, query).value) == FoundByName(TableOnDisk(dt), rs) <==>
                rs.None? || rs.value == [] || forall i :: 0 <= i < |query| ==> NoCollision(mi, query[i]))
  {
    hide *;
    WrittenIndexOpens(dt, mi, validate);
    AnswerReadBack(Opened(IndexBytes(dt, mi), validate).value, TableOnDisk(dt), mi, query);
    AgreesIff(TableOnDisk(dt), mi, query, rs);
  }

  lemma NoCollisionAt(mi: Table<Value>, query: seq<seq<Byte>>)
    requires |mi| > 0
    ensures QueryHasNoCollision(mi, query) <==> forall i :: 0 <= i < |query| ==> NoCollision(mi, query[i])
  {
    hide NoCollision;
  }

  lemma Collision(mi: Table<Value>, query: seq<seq<Byte>>) returns (k: nat)
    requires |mi| > 0 && !QueryHasNoCollision(mi, query)
    ensures k < |query| && !NoCollision(mi, query[k])
  {
    hide NoCollision;
    k :| k < |query| && !NoCollision(mi, query[k]);
  }
}
