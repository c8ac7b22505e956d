/**
 Documents that have the same name on disk, because the writer has skipped what told
 their names apart: a query over the file takes them for one document.
 */
module SameNames {
  import opened Common
  import opened DiskLayout
  import opened Fnv
  import opened LossyNames
  import opened MemIndex
  import opened QueryAgreement
  import opened QueryProcessor
  import opened RoundTrip
  import opened Sorting
  import opened WriteIndex
  import T = Tables

  // ----- when the file answers like memory -----

  // What the comparison takes for granted, but for the names.
  ghost predicate Sound(dt: Table<Value>, mi: Table<Value>)
  {
    |dt| > 0 && IsMemIndex(mi) && |mi| > 0 && AllNamed(dt, mi)
  }

  // The file answers the query as memory does, unless hashes collide.
  ghost predicate Agrees(dt: Table<Value>, mi: Table<Value>, query: seq<seq<Byte>>, rs: Option<seq<SearchResult>>)
    requires Sound(dt, mi)
  {
    query != [] && QueryHasNoCollision(mi, query) && Returns(mi, query, rs) ==>
      ResultsOf(FileAnswer(dt, mi, query)) == FoundByName(dt, rs)
  }

  // Some order of the results that memory may return.
  lemma SomeReturn(mi: Table<Value>, query: seq<seq<Byte>>) returns (rs: Option<seq<SearchResult>>)
    requires IsMemIndex(mi)
    ensures Returns(mi, query, rs)
  {
    hide Answer, Ordered, StablePermutation;
    match Answer(mi, query)
    case None => rs := None;
    case Some(unsorted) =>
      CompareRanksOrders();
      var sorted := SortedExists(CompareRanks, false, unsorted);
      rs := Some(sorted);
  }

  // A name is in the counts of a word when one of its documents has it.
  lemma {:induction false} NameCounted(dt: Table<Value>, kvs: seq<KV<Value>>, kv: KV<Value>)
    requires |dt| > 0 && kv in kvs
    ensures NameOf(dt, kv.key) in CountsOf(dt, kvs)
  {
    hide NameOf, CountIn;
    if kv != Last(kvs) {
      assert kvs == Init(kvs) + [Last(kvs)];
      NameCounted(dt, Init(kvs), kv);
    }
  }

  // The word is stored in the index, with the document among its own.
  ghost predicate Stores(mi: Table<Value>, word: seq<Byte>, d: Key)
    requires |mi| > 0
  {
    var table := PostingsOf(mi, word);
    table.Some? && IsPostingTable(table.value) && |table.value| > 0 && T.Find(table.value, d).Some?
  }

  lemma StoredWord(mi: Table<Value>, d: Key) returns (word: seq<Byte>)
    requires IsMemIndex(mi) && |mi| > 0 && HasPosting(mi, d)
    ensures Stores(mi, word, d) && NoCollision(mi, word)
  {
    hide T.Find, FnvHash, IsPostingTable;
    var key: Key :| PostedUnder(mi, key, d);
    Pairs(mi, key);
    word := T.Find(mi, key).value.value.word;
  }

  // For stored words, a document matches when it is among the documents of all of them.
  lemma MatchesStored(mi: Table<Value>, query: seq<seq<Byte>>, d: Key)
    requires IsMemIndex(mi) && |mi| > 0 && forall i :: 0 <= i < |query| ==> PostingsOf(mi, query[i]).Some?
    ensures TablesFor(mi, query).Some?
    ensures IsMatch(mi, query, d) <==> forall i :: 0 <= i < |query| ==> Stores(mi, query[i], d)
  {
    hide T.Find, FnvHash, TablesFor;
    TablesNonEmpty(mi, query);
    forall i | 0 <= i < |query|
      ensures HashPostings(mi, query[i]) == PostingsOf(mi, query[i])
    {
    }
  }

  // Two documents of one word with the same name: memory finds both, the file one.
  lemma TwoInOneWord(dt: Table<Value>, mi: Table<Value>, word: seq<Byte>, d: Key, e: Key)
    returns (rs: Option<seq<SearchResult>>)
    requires Sound(dt, mi) && d != e && NameOf(dt, d) == NameOf(dt, e)
    requires Stores(mi, word, d) && Stores(mi, word, e) && NoCollision(mi, word)
    ensures !Agrees(dt, mi, [word], rs)
  {
    hide T.Find, FnvHash, NameOf, CountsOf, IsMemIndex, Stores, IsMatch, Rank, Answer, TablesFor, FileAnswer, Ordered,
         StablePermutation, NoCollision, ByName;
    var query := [word];
    rs := SomeReturn(mi, query);
    StoredTable(mi, word, d);
    MatchesStored(mi, query, d);
    MatchesStored(mi, query, e);
    SearchFails(mi, query);
    SearchIsExact(mi, query, rs.value);
    var a, b := SearchResult(d, Rank(mi, query, d)), SearchResult(e, Rank(mi, query, e));
    assert a in rs.value && b in rs.value;
    var i :| 0 <= i < |rs.value| && rs.value[i] == a;
    var j :| 0 <= j < |rs.value| && rs.value[j] == b;
    NameTwice(FileAnswer(dt, mi, query), ByName(dt, rs.value), i, j);
  }

  lemma StoredTable(mi: Table<Value>, word: seq<Byte>, d: Key)
    requires |mi| > 0 && Stores(mi, word, d)
    ensures PostingsOf(mi, word).Some? && HashPostings(mi, word) == PostingsOf(mi, word)
    ensures |PostingsOf(mi, word).value| > 0 && IsPostingTable(PostingsOf(mi, word).value)
    ensures T.Find(PostingsOf(mi, word).value, d).Some?
  {
    hide T.Find, FnvHash, IsPostingTable;
  }

  // A list with a name at two places is not the results of a map.
  lemma NameTwice(m: Counts, named: seq<QueryResult>, i: nat, j: nat)
    requires i < |named| && j < |named| && i != j && named[i].documentName == named[j].documentName
    ensures ResultsOf(m) != multiset(named)
  {
    if ResultsOf(m) == multiset(named) {
      hide ResultsOf;
      assert named[i] in multiset(named) && named[j] in multiset(named);
      OnceInResults(m, named[i]);
      OnceInResults(m, named[j]);
      TwiceCounted(named, if i < j then i else j, if i < j then j else i);
    }
  }

  lemma OnceInResults(m: Counts, r: QueryResult)
    ensures ResultsOf(m)[r] <= 1
    ensures r in ResultsOf(m) ==> r.documentName in m && r.rank == m[r.documentName]
  {
    var results := set name | name in m :: QueryResult(name, m[name]);
  }

  // A document of one word and a document of another with the same name: the file makes
  // one document of them, which has both words.
  lemma PhantomOfTwo(dt: Table<Value>, mi: Table<Value>, p: seq<Byte>, q: seq<Byte>, d: Key, e: Key)
    requires Sound(dt, mi) && NameOf(dt, d) == NameOf(dt, e) && Stores(mi, p, d) && Stores(mi, q, e)
    ensures NameOf(dt, d) in FileAnswer(dt, mi, [p, q])
  {
    hide T.Find, FnvHash, NameOf, CountsOf, IsMemIndex, PostingsOf, IsPostingTable, T.AllPairs;
    StoredTable(mi, p, d);
    StoredTable(mi, q, e);
    NameStored(dt, PostingsOf(mi, p).value, d);
    NameStored(dt, PostingsOf(mi, q).value, e);
    var query := [p, q];
    var mp := CountsOf(dt, T.AllPairs(PostingsOf(mi, p).value));
    var mq := CountsOf(dt, T.AllPairs(PostingsOf(mi, q).value));
    assert CountsOfWord(dt, mi, query[0]) == Some(mp) && CountsOfWord(dt, mi, query[1]) == Some(mq);
    var both := Intersect(mp, mq);
    assert NameOf(dt, d) in both;
    assert RefinedFrom(dt, mi, both, query, 2) == both;
    assert RefinedFrom(dt, mi, mp, query, 1) == both;
  }

  lemma NameStored(dt: Table<Value>, table: Table<Value>, d: Key)
    requires |dt| > 0 && |table| > 0 && IsPostingTable(table) && T.Find(table, d).Some?
    ensures NameOf(dt, d) in CountsOf(dt, T.AllPairs(table))
  {
    hide T.Find, NameOf, CountsOf, IsPostingTable, T.AllPairs;
    DocTableWellFormed(table);
    T.FoundKey(table, d);
    T.AllPairsAreFound(table, T.Find(table, d).value);
    NameCounted(dt, T.AllPairs(table), T.Find(table, d).value);
  }

  // If two documents of the index have the same name, some query of one or two words
  // goes wrong.
  lemma SomeQueryFails(dt: Table<Value>, mi: Table<Value>)
    returns (query: seq<seq<Byte>>, rs: Option<seq<SearchResult>>)
    requires Sound(dt, mi) && !PostedApart(dt, mi)
    ensures !Agrees(dt, mi, query, rs)
  {
    hide T.Find, NameOf, IsMemIndex, Stores, Agrees, NoCollision, HasPosting, AllNamed;
    var d, e :| HasPosting(mi, d) && HasPosting(mi, e) && NameOf(dt, d) == NameOf(dt, e) && d != e;
    var p := StoredWord(mi, d);
    var q := StoredWord(mi, e);
    if Stores(mi, p, e) {
      query := [p];
      rs := TwoInOneWord(dt, mi, p, d, e);
    } else {
      query, rs := TwoWordsFail(dt, mi, p, q, d, e);
    }
  }

  lemma TwoWordsFail(dt: Table<Value>, mi: Table<Value>, p: seq<Byte>, q: seq<Byte>, d: Key, e: Key)
    returns (query: seq<seq<Byte>>, rs: Option<seq<SearchResult>>)
    requires Sound(dt, mi) && NameOf(dt, d) == NameOf(dt, e) && Stores(mi, p, d) && Stores(mi, q, e)
    requires !Stores(mi, p, e) && NoCollision(mi, p) && NoCollision(mi, q)
    ensures !Agrees(dt, mi, query, rs)
  {
    hide T.Find, FnvHash, NameOf, CountsOf, IsMemIndex, Stores, IsMatch, Rank, Answer, TablesFor, FileAnswer, Ordered,
         StablePermutation, NoCollision, ByName, PostingsOf;
    query := [p, q];
    rs := SomeReturn(mi, query);
    PhantomOfTwo(dt, mi, p, q, d, e);
    var m := FileAnswer(dt, mi, query);
    if ResultsOf(m) == FoundByName(dt, rs) {
      // The phantom must be a third document, with the name of d.
      InResults(m, NameOf(dt, d));
      var named := ByName(dt, rs.value);
      var i :| 0 <= i < |named| && named[i] == QueryResult(NameOf(dt, d), m[NameOf(dt, d)]);
      StoredTable(mi, p, d);
      StoredTable(mi, q, e);
      var f := rs.value[i].docId;
      MatchesStored(mi, query, f);
      SearchIsExact(mi, query, rs.value);
      assert rs.value[i] in rs.value;
      assert Stores(mi, query[0], f) && Stores(mi, query[1], f);
      if f != d {
        query := [p];
        rs := TwoInOneWord(dt, mi, p, d, f);
      } else {
        query := [q];
        rs := TwoInOneWord(dt, mi, q, d, e);
      }
    }
  }

  lemma InResults(m: Counts, name: Name)
    requires name in m
    ensures QueryResult(name, m[name]) in ResultsOf(m)
  {
    var results := set n | n in m :: QueryResult(n, m[n]);
    assert QueryResult(name, m[name]) in results;
  }

  // Every query without hash collisions is answered by the file as by memory exactly when
  // no two documents of the index have the same name.
  lemma NamesDecide(dt: Table<Value>, mi: Table<Value>)
    requires Sound(dt, mi)
    ensures (forall query, rs :: Agrees(dt, mi, query, rs)) <==> PostedApart(dt, mi)
  {
    if PostedApart(dt, mi) {
      forall query, rs
        ensures Agrees(dt, mi, query, rs)
      {
        hide T.Find, PostedApart, AllNamed, IsMemIndex, NoCollision, FileAnswer, FoundByName, Returns, FnvHash;
        if query != [] && QueryHasNoCollision(mi, query) && Returns(mi, query, rs) {
          FileAgreesWithMemory(dt, mi, query, rs);
        }
      }
    } else {
      hide PostedApart, Agrees, Sound;
      var query, rs := SomeQueryFails(dt, mi);
    }
  }

  // The same for the file that was written, where names are the names on disk.
  ghost predicate WrittenAgrees(dt: Table<Value>, mi: Table<Value>, query: seq<seq<Byte>>,
                                rs: Option<seq<SearchResult>>, validate: bool)
    requires Writable(dt, mi)
  {
    WritableParts(dt, mi);
    query != [] && QueryHasNoCollision(mi, query) && Returns(mi, query, rs) ==>
      && var ix := Opened(IndexBytes(dt, mi), validate);
      && ix.Some? && IndexAnswer(ix.value, query).Some?
      && ResultsOf(IndexAnswer(ix.value, query).value) == FoundByName(TableOnDisk(dt), rs)
  }

  lemma SoundOnDisk(dt: Table<Value>, mi: Table<Value>)
    requires IsDocTable(dt) && Sound(dt, mi)
    ensures Sound(TableOnDisk(dt), mi)
  {
    hide T.Find, IsMemIndex, TableOnDisk, IsDocTable, FnvHash;
    DocTableOnDisk(dt);
  }

  lemma WrittenAgreesValue(dt: Table<Value>, mi: Table<Value>, query: seq<seq<Byte>>, rs: Option<seq<SearchResult>>,
                           validate: bool)
    requires Writable(dt, mi) && Sound(TableOnDisk(dt), mi)
    ensures WrittenAgrees(dt, mi, query, rs, validate) <==> Agrees(TableOnDisk(dt), mi, query, rs)
  {
    WrittenIndexOpens(dt, mi, validate);
    hide OpenOn, IsMemIndex, QueryHasNoCollision, Returns, TableOnDisk, IndexBytes, Opened, IndexAnswer, FileAnswer,
         ResultsOf, FoundByName, Writable;
    if query != [] {
      AnswerReadBack(Opened(IndexBytes(dt, mi), validate).value, TableOnDisk(dt), mi, query);
    }
  }

  // Every query without hash collisions over the finished file is answered as in memory
  // exactly when no two documents of the index have the same name on disk.
  lemma WrittenNamesDecide(dt: Table<Value>, mi: Table<Value>, validate: bool)
    requires Writable(dt, mi) && Sound(dt, mi)
    ensures |TableOnDisk(dt)| > 0
    ensures (forall query, rs :: WrittenAgrees(dt, mi, query, rs, validate)) <==> PostedApart(TableOnDisk(dt), mi)
  {
    WritableParts(dt, mi);
    SoundOnDisk(dt, mi);
    hide *;
    NamesDecide(TableOnDisk(dt), mi);
    SoundParts(TableOnDisk(dt), mi);
    forall query, rs
      ensures WrittenAgrees(dt, mi, query, rs, validate) <==> Agrees(TableOnDisk(dt), mi, query, rs)
    {
      WrittenAgreesValue(dt, mi, query, rs, validate);
    }
  }

  lemma SoundParts(dt: Table<Value>, mi: Table<Value>)
    requires Sound(dt, mi)
    ensures |dt| > 0 && |mi| > 0 && IsMemIndex(mi)
  {
  }

  // ----- an example -----

  // Two names in UTF-8, "\u00e9a" and "\u00fca", of which the same is left on disk.
  const NAME1: Name := [0xC3, 0xA9, 0x61]
  const NAME2: Name := [0xC3, 0xBC, 0x61]
  const LEFT: Name := [0x61, 0, 0]

  function TwoNames(): Table<Value>
  {
    [Chain([KV(2, DocName(NAME2))]), Chain([KV(1, DocName(NAME1))])]
  }

  // Document 1 has the word "p", and only document 2 the word "q".
  function TwoWords(): Table<Value>
  {
    [Chain([WordOf([0x70], 1), WordOf([0x71], 2)])]
  }

  function WordOf(word: seq<Byte>, d: Key): KV<Value>
  {
    KV(FnvHash(word), Postings(word, [Chain([KV(d, Positions([0]))])]))
  }

  lemma OneIsLeft(b: Byte)
    requires b >= 0x80
    ensures NameOnDisk([0xC3, b, 0x61]) == LEFT
  {
    var name: seq<Byte> := [0xC3, b, 0x61];
    WrittenAll(name);
    assert Init(name) == [0xC3, b] && Init(Init(name)) == [0xC3] && Init(Init(Init(name))) == [];
    assert AsciiOnly([0xC3]) == [];
    assert AsciiOnly([0xC3, b]) == [];
    assert AsciiOnly(name) == [0x61];
  }

  function Disk(): Table<Value>
  {
    [Chain([KV(2, DocName(LEFT))]), Chain([KV(1, DocName(LEFT))])]
  }

  function OneDoc(d: Key): Table<Value>
  {
    [Chain([KV(d, Positions([0]))])]
  }

  lemma TwoLeft()
    ensures TableOnDisk(TwoNames()) == Disk()
    ensures NameOnDisk(NAME1) == NameOnDisk(NAME2) == LEFT
  {
    OneIsLeft(0xA9);
    OneIsLeft(0xBC);
    hide NameOnDisk;
    OneOnDisk(KV(2, DocName(NAME2)));
    OneOnDisk(KV(1, DocName(NAME1)));
    hide OnDisk, BucketOnDisk;
    var t := TableOnDisk(TwoNames());
    hide TableOnDisk;
    assert t[0] == Disk()[0] && t[1] == Disk()[1];
  }

  lemma OneOnDisk(kv: KV<Value>)
    ensures BucketOnDisk([kv]) == [OnDisk(kv)]
  {
    hide OnDisk;
  }

  lemma OneBucket<V>(kvs: seq<KV<V>>)
    ensures T.AllPairs([Chain(kvs)]) == kvs && forall key: Key :: T.Find([Chain(kvs)], key) == T.FindIn(kvs, key)
  {
    assert Init([Chain(kvs)]) == [];
  }

  lemma OnePair<V>(kv: KV<V>)
    ensures T.DistinctKeys([kv]) && forall key: Key :: T.FindIn([kv], key) == if key == kv.key then Some(kv) else None
  {
  }

  lemma TwoPairs<V>(a: KV<V>, b: KV<V>)
    requires a.key != b.key
    ensures T.DistinctKeys([a, b])
    ensures forall key: Key ::
              T.FindIn([a, b], key) == if key == a.key then Some(a) else if key == b.key then Some(b) else None
  {
    OnePair(b);
    assert [a, b][1..] == [b];
  }

  lemma OneDocFound(d: Key)
    ensures |OneDoc(d)| > 0
    ensures IsPostingTable(OneDoc(d)) && NotOverfull(OneDoc(d)) && T.AllPairs(OneDoc(d)) == [KV(d, Positions([0]))]
    ensures forall e: Key :: T.Find(OneDoc(d), e) == if e == d then Some(KV(d, Positions([0]))) else None
  {
    OneBucket([KV(d, Positions([0]))]);
    OnePair(KV(d, Positions([0])));
    hide T.AllPairs, T.FindIn;
  }

  // What is found in the tables.
  lemma WordsFound()
    requires FnvHash([0x70]) != FnvHash([0x71])
    ensures IsMemIndex(TwoWords()) && |TwoWords()| > 0
    ensures forall key: Key :: T.Find(TwoWords(), key)
              == if key == FnvHash([0x70]) then Some(WordOf([0x70], 1))
                 else if key == FnvHash([0x71]) then Some(WordOf([0x71], 2)) else None
  {
    hide *;
    WordOfValue([0x70], 1);
    WordOfValue([0x71], 2);
    TwoWordsValue();
    OneBucket([WordOf([0x70], 1), WordOf([0x71], 2)]);
    TwoPairs(WordOf([0x70], 1), WordOf([0x71], 2));
    OneBucketIndex(WordOf([0x70], 1), WordOf([0x71], 2));
  }

  lemma TwoWordsValue()
    ensures TwoWords() == [Chain([WordOf([0x70], 1), WordOf([0x71], 2)])]
  {
    hide WordOf;
  }

  lemma WordOfValue(word: seq<Byte>, d: Key)
    ensures WordOf(word, d) == KV(FnvHash(word), Postings(word, OneDoc(d)))
    ensures IsPostings(WordOf(word, d)) && NotOverfull(WordOf(word, d).value.table)
  {
    OneDocFound(d);
    hide FnvHash, IsPostingTable, NotOverfull;
  }

  lemma OneBucketIndex(a: KV<Value>, b: KV<Value>)
    requires IsPostings(a) && IsPostings(b) && a.key != b.key
    requires NotOverfull(a.value.table) && NotOverfull(b.value.table)
    ensures IsMemIndex([Chain([a, b])])
  {
    hide IsPostings, NotOverfull;
    TwoPairs(a, b);
    assert T.InBucket([a, b], 0, 1);
  }

  lemma NamesFound(t: Table<Value>, a: Name, b: Name)
    requires t == [Chain([KV(2, DocName(b))]), Chain([KV(1, DocName(a))])]
    ensures IsDocTable(t)
    ensures NameOf(t, 1) == a && NameOf(t, 2) == b && T.Find(t, 1).Some? && T.Find(t, 2).Some?
  {
    var one, two := KV(1, DocName(a)), KV(2, DocName(b));
    OnePair(one);
    OnePair(two);
    hide T.FindIn;
    assert T.BucketNum(t, 1) == 1 && T.BucketNum(t, 2) == 0;
    assert T.InBucket(t[0].kvs, 0, 2) && T.InBucket(t[1].kvs, 1, 2);
  }

  lemma CountedOne(dt: Table<Value>, d: Key)
    requires |dt| > 0
    ensures CountsOf(dt, [KV(d, Positions([0]))]) == map[NameOf(dt, d) := 1]
  {
    hide NameOf;
    var kvs := [KV(d, Positions([0]))];
    assert Init(kvs) == [] && Last(kvs) == KV(d, Positions([0]));
    assert CountsOf(dt, []) == map[];
  }

  lemma CountsOfOneDoc(dt: Table<Value>, mi: Table<Value>, word: seq<Byte>, d: Key)
    requires |dt| > 0 && |mi| > 0 && T.Find(mi, FnvHash(word)) == Some(WordOf(word, d))
    ensures CountsOfWord(dt, mi, word) == Some(map[NameOf(dt, d) := 1])
  {
    OneDocFound(d);
    CountedOne(dt, d);
    hide T.Find, T.AllPairs, FnvHash, NameOf, CountsOf;
  }

  // Memory finds nothing for "p q", the file a document that does not exist, with the
  // rank of both.
  lemma Phantom()
    ensures IsMemIndex(TwoWords()) && IsDocTable(TwoNames()) && AllNamed(TwoNames(), TwoWords())
    ensures QueryHasNoCollision(TwoWords(), [[0x70], [0x71]]) && Returns(TwoWords(), [[0x70], [0x71]], None)
    ensures |TableOnDisk(TwoNames())| > 0 && NameOnDisk(NAME1) == NameOnDisk(NAME2) == LEFT
    ensures FileAnswer(TableOnDisk(TwoNames()), TwoWords(), [[0x70], [0x71]]) == map[LEFT := 2]
  {
    DifferentLetters(0x70, 0x71);
    TwoLeft();
    WordsFound();
    NamesFound(TwoNames(), NAME1, NAME2);
    NamesFound(Disk(), LEFT, LEFT);
    CountsOfOneDoc(Disk(), TwoWords(), [0x70], 1);
    CountsOfOneDoc(Disk(), TwoWords(), [0x71], 2);
    hide *;
    PhantomAnswer(Disk(), TwoWords(), [0x70], [0x71], LEFT);
    NothingInBoth();
    BothNamed();
    SomeNames();
  }

  lemma SomeNames()
    ensures |TableOnDisk(TwoNames())| > 0 && |TwoWords()| > 0 && |Disk()| > 0
  {
    hide TableOnDisk;
  }

  lemma PhantomAnswer(dt: Table<Value>, mi: Table<Value>, p: seq<Byte>, q: seq<Byte>, name: Name)
    requires |dt| > 0 && |mi| > 0
    requires CountsOfWord(dt, mi, p) == CountsOfWord(dt, mi, q) == Some(map[name := 1])
    ensures FileAnswer(dt, mi, [p, q]) == map[name := 2]
  {
    hide CountsOfWord;
    var m := map[name := 1];
    var both := Intersect(m, m);
    assert both == map[name := 2];
    assert RefinedFrom(dt, mi, both, [p, q], 2) == both;
    assert RefinedFrom(dt, mi, m, [p, q], 1) == both;
  }

  lemma BothNamed()
    requires FnvHash([0x70]) != FnvHash([0x71]) && |TwoNames()| > 0 && |TwoWords()| > 0
    requires T.Find(TwoNames(), 1).Some? && T.Find(TwoNames(), 2).Some?
    ensures AllNamed(TwoNames(), TwoWords())
  {
    WordsFound();
    OneDocFound(1);
    OneDocFound(2);
    hide T.Find, FnvHash, TwoNames, TwoWords, IsMemIndex;
  }

  lemma NothingInBoth()
    requires FnvHash([0x70]) != FnvHash([0x71])
    ensures IsMemIndex(TwoWords()) && |TwoWords()| > 0
    ensures Returns(TwoWords(), [[0x70], [0x71]], None) && QueryHasNoCollision(TwoWords(), [[0x70], [0x71]])
  {
    hide *;
    WordsFound();
    WordOfValue([0x70], 1);
    WordOfValue([0x71], 2);
    OneDocFound(1);
    OneDocFound(2);
    NoCommonDocument(TwoWords(), [0x70], [0x71], OneDoc(1), OneDoc(2));
  }

  // Two words without a common document.
  lemma NoCommonDocument(mi: Table<Value>, p: seq<Byte>, q: seq<Byte>, s: Table<Value>, t: Table<Value>)
    requires IsMemIndex(mi) && |mi| > 0
    requires T.Find(mi, FnvHash(p)) == Some(KV(FnvHash(p), Postings(p, s)))
    requires T.Find(mi, FnvHash(q)) == Some(KV(FnvHash(q), Postings(q, t)))
    requires |s| > 0 && |t| > 0 && forall d: Key :: T.Find(s, d).None? || T.Find(t, d).None?
    ensures Returns(mi, [p, q], None) && QueryHasNoCollision(mi, [p, q])
  {
    hide FnvHash, T.Find, IsMemIndex, TablesFor, Answer, IsMatch, IsPostingTable;
    var query := [p, q];
    assert PostingsOf(mi, query[0]) == Some(s) && PostingsOf(mi, query[1]) == Some(t);
    MatchesStored(mi, query, 0);
    SearchFails(mi, query);
    forall d: Key
      ensures !IsMatch(mi, query, d)
    {
      MatchesStored(mi, query, d);
      assert T.Find(s, d).None? ==> !Stores(mi, query[0], d);
      assert T.Find(t, d).None? ==> !Stores(mi, query[1], d);
    }
  }
}
