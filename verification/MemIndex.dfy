/**
 The inverted index in memory (hw2/MemIndex.c): a hash table that leads to a hash table
 for every word.  Posting lists are added to the tables in place, and a conjunctive
 query narrows a list of results in place.
 */
module MemIndex {
  import opened Common
  import opened DiskLayout
  import opened Fnv
  import opened HashTable
  import opened LinkedList
  import opened MappedTables
  import opened RoundTrip
  import opened Sorting
  import T = Tables

  datatype SearchResult = SearchResult(docId: Key, rank: int)

  const DEFAULT_POSTINGS_CAPACITY := 1

  // ----- what an index is -----

  ghost predicate IsMemIndex(t: Table<Value>)
  {
    && IsIndexTable(t)
    && forall b, j :: 0 <= b < |t| && 0 <= j < |t[b].kvs| ==> NotOverfull(t[b].kvs[j].value.table)
  }

  ghost predicate NotOverfull(t: Table<Value>)
  {
    T.Size(t) <= 3 * |t|
  }

  // What a pair of an index must be, found under any key.
  ghost predicate GoodPair(r: Option<KV<Value>>)
  {
    r.Some? ==> IsPostings(r.value) && NotOverfull(r.value.value.table)
  }

  lemma FromFinds(t: Table<Value>)
    requires T.WellFormed(t) && forall key :: GoodPair(T.Find(t, key))
    ensures IsMemIndex(t)
  {
    hide T.FindIn, T.AllPairs, T.Find, FnvHash, NotOverfull;
    forall b, j | 0 <= b < |t| && 0 <= j < |t[b].kvs|
      ensures IsPostings(t[b].kvs[j]) && NotOverfull(t[b].kvs[j].value.table)
    {
      T.MemberFound(t, b, j);
      assert GoodPair(T.Find(t, t[b].kvs[j].key));
    }
  }

  lemma PostingsFromFinds(t: Table<Value>)
    requires T.WellFormed(t)
    requires forall d: Key :: T.Find(t, d).Some? ==> T.Find(t, d).value.value.Positions?
    ensures IsPostingTable(t)
  {
    hide T.FindIn, T.AllPairs, T.Find;
    forall b, j | 0 <= b < |t| && 0 <= j < |t[b].kvs|
      ensures t[b].kvs[j].value.Positions?
    {
      T.MemberFound(t, b, j);
    }
  }

  lemma Pairs(t: Table<Value>, key: Key)
    requires IsMemIndex(t)
    ensures T.WellFormed(t) && GoodPair(T.Find(t, key))
    ensures var r := T.Find(t, key);
            r.Some? ==>
              && r.value.key == key && r.value.value.Postings? && key == FnvHash(r.value.value.word)
              && IsPostingTable(r.value.value.table) && NotOverfull(r.value.value.table)
  {
    hide FnvHash;
    var r := T.Find(t, key);
    if r.Some? {
      var b := T.BucketNum(t, key);
      var j :| 0 <= j < |t[b].kvs| && t[b].kvs[j] == r.value;
      assert IsPostings(t[b].kvs[j]);
    }
  }

  lemma Documents(t: Table<Value>)
    requires IsPostingTable(t)
    ensures T.WellFormed(t)
    ensures forall kv :: kv in T.AllPairs(t) ==> kv.value.Positions?
    ensures forall d: Key :: T.Find(t, d).Some? ==> T.Find(t, d).value.value.Positions?
  {
    forall kv | kv in T.AllPairs(t)
      ensures kv.value.Positions?
    {
      T.AllPairsMember(t, kv);
    }
    forall d: Key | T.Find(t, d).Some?
      ensures T.Find(t, d).value.value.Positions?
    {
      var b := T.BucketNum(t, d);
      var j :| 0 <= j < |t[b].kvs| && t[b].kvs[j] == T.Find(t, d).value;
    }
  }

  // The table that memory holds for a word; only hashes are compared.
  function HashPostings(t: Table<Value>, word: seq<Byte>): Option<Table<Value>>
    requires |t| > 0
  {
    match T.Find(t, FnvHash(word))
    case None => None
    case Some(kv) => if kv.value.Postings? then Some(kv.value.table) else None
  }

  // ----- adding -----

  // The positions recorded for a word in a document.
  function PositionsAt(t: Table<Value>, word: seq<Byte>, doc: Key): Option<seq<Position>>
    requires |t| > 0
  {
    PositionsOf(T.Find(t, FnvHash(word)), word, doc)
  }

  function PositionsOf(r: Option<KV<Value>>, word: seq<Byte>, doc: Key): Option<seq<Position>>
  {
    if r.Some? && r.value.value.Postings? && r.value.value.word == word && |r.value.value.table| > 0 then
      match T.Find(r.value.value.table, doc)
      case None => None
      case Some(kv) => if kv.value.Positions? then Some(kv.value.positions) else None
    else None
  }

  // Verify333: no other word has this hash, and the document is new for the word.
  ghost predicate CanAdd(t: Table<Value>, word: seq<Byte>, doc: Key)
    requires |t| > 0
  {
    var r := T.Find(t, FnvHash(word));
    r.Some? ==>
      && r.value.value.Postings? && r.value.value.word == word
      && |r.value.value.table| > 0 && T.Find(r.value.value.table, doc).None?
  }

  // The hash of the word leads to the word itself.
  ghost predicate FiledUnder(t: Table<Value>, word: seq<Byte>)
    requires |t| > 0
  {
    var r := T.Find(t, FnvHash(word));
    r.Some? && r.value.value.Postings? && r.value.value.word == word
  }

  // The table of a word after a document has been posted.
  function Posted(table: Table<Value>, doc: Key, positions: seq<Position>): Table<Value>
    requires |table| > 0
  {
    T.InsertInto(T.Resized(table), KV(doc, Positions(positions)))
  }

  function NewWord(t: Table<Value>, word: seq<Byte>): (r: Table<Value>)
    requires |t| > 0
  {
    T.InsertInto(T.Resized(t), KV(FnvHash(word), Postings(word, T.EmptyTable(DEFAULT_POSTINGS_CAPACITY))))
  }

  // ----- the tables in memory -----

  // What the index stores for a word: a pointer to the table of its documents.
  datatype WordPostings = WordPostings(word: seq<Byte>, postings: HashTable<Value>)

  // What the tables of documents hold.
  type Views = map<HashTable<Value>, Table<Value>>

  // The postings of a word as a value.
  function Viewed(views: Views): WordPostings -> Value
  {
    (wp: WordPostings) => Postings(wp.word, if wp.postings in views then views[wp.postings] else [])
  }

  // Every word has a table of its own.
  ghost predicate OwnTables(words: Table<WordPostings>, views: Views)
  {
    && (forall kv :: kv in T.AllPairs(words) ==> kv.value.postings in views)
    && (forall a, b :: a in T.AllPairs(words) && b in T.AllPairs(words) && a.value.postings == b.value.postings ==>
          a.key == b.key)
  }

  lemma ViewedValue(views: Views, wp: WordPostings)
    ensures Viewed(views)(wp) == Postings(wp.word, if wp.postings in views then views[wp.postings] else [])
  {
  }

  lemma FoundPostings(words: Table<WordPostings>, views: Views, key: Key)
    requires T.WellFormed(words) && OwnTables(words, views) && T.Find(words, key).Some?
    ensures T.Find(words, key).value.value.postings in views && T.Find(words, key).value.key == key
  {
    hide T.AllPairs, T.Find;
    T.FoundKey(words, key);
    T.AllPairsAreFound(words, T.Find(words, key).value);
  }

  lemma NothingViewed()
    ensures OwnTables(T.EmptyTable(16), map[])
    ensures MapTable(Viewed(map[]), T.EmptyTable(16)) == T.EmptyTable<Value>(16)
  {
    T.EmptySize<WordPostings>(16);
  }

  // A new word with a new, empty table, in the index as a value.
  lemma NewWordViewed(words: Table<WordPostings>, views: Views, key: Key, wp: WordPostings)
    requires T.WellFormed(words) && T.Size(words) <= 3 * |words| && OwnTables(words, views)
    requires T.Find(words, key).None? && wp.postings !in views
    ensures var views', words' := views[wp.postings := T.EmptyTable(1)], T.InsertInto(T.Resized(words), KV(key, wp));
            && OwnTables(words', views') && T.Find(words', key) == Some(KV(key, wp))
            && MapTable(Viewed(views'), words')
               == T.InsertInto(T.Resized(MapTable(Viewed(views), words)), KV(key, Postings(wp.word, T.EmptyTable(1))))
  {
    hide T.AllPairs, T.Find, T.InsertInto, T.Resized, T.EmptyTable, MapTable, Viewed, T.Size;
    var views', kv := views[wp.postings := T.EmptyTable(1)], KV(key, wp);
    T.InsertedFinds(words, kv);
    var words' := T.InsertInto(T.Resized(words), kv);
    forall other | other in T.AllPairs(words')
      ensures other == kv || (other in T.AllPairs(words) && other.value.postings in views)
    {
      T.AllPairsAreFound(words', other);
      T.AllPairsAreFound(words, other);
    }
    forall other | other in T.AllPairs(words)
      ensures Viewed(views)(other.value) == Viewed(views')(other.value)
    {
      ViewedValue(views, other.value);
      ViewedValue(views', other.value);
    }
    ViewedValue(views', wp);
    MapSame(Viewed(views), Viewed(views'), words);
    MapResized(Viewed(views'), words);
    MapInsert(Viewed(views'), T.Resized(words), kv);
  }

  // A change to the table of a word, in the index as a value.
  lemma PostedViewed(words: Table<WordPostings>, views: Views, key: Key, wp: WordPostings, table: Table<Value>)
    requires T.WellFormed(words) && OwnTables(words, views) && T.Find(words, key) == Some(KV(key, wp))
    ensures var views' := views[wp.postings := table];
            && OwnTables(words, views') && T.Find(MapTable(Viewed(views), words), key).Some?
            && MapTable(Viewed(views'), words)
               == T.SetIn(MapTable(Viewed(views), words), key, Postings(wp.word, table))
  {
    hide T.AllPairs, T.Find, MapTable, Viewed, T.WellFormed;
    var views', kv := views[wp.postings := table], KV(key, wp);
    T.AllPairsAreFound(words, kv);
    forall other | other in T.AllPairs(words) && other.key != key
      ensures Viewed(views)(other.value) == Viewed(views')(other.value)
    {
      assert other.value.postings != wp.postings;
      ViewedValue(views, other.value);
      ViewedValue(views', other.value);
    }
    ViewedValue(views', wp);
    MapSet(Viewed(views), Viewed(views'), words, key);
  }

  class MemIndex {
    const words: HashTable<WordPostings>
    ghost var views: Views
    ghost var table: Table<Value>  // the index as a value
    ghost var Repr: set<object>

    ghost predicate Valid()
      reads this, Repr
      ensures Valid() ==> this in Repr && |table| > 0 && T.Size(table) <= 3 * |table|
    {
      && this in Repr && words in Repr && words.Repr <= Repr && this !in words.Repr && words.Valid()
      && table == MapTable(Viewed(views), words.table) && OwnTables(words.table, views)
      && (forall p :: p in views ==> TableValid(p))
      && (forall p, q :: p in views && q in views && p != q ==> p in Repr && q in Repr && p.Repr !! q.Repr)
      && |table| > 0 && T.Size(table) <= 3 * |table|
    }

    // The table of documents p is a part of the index, and holds what the view says.
    ghost predicate TableValid(p: HashTable<Value>)
      reads this, Repr
    {
      && p in Repr && p.Repr <= Repr && this !in p.Repr && words in Repr && p.Repr !! words.Repr
      && p.Valid() && p in views && p.table == views[p]
    }

    lemma Intro()
      requires this in Repr && words in Repr && words.Repr <= Repr && this !in words.Repr && words.Valid()
      requires table == MapTable(Viewed(views), words.table) && OwnTables(words.table, views)
      requires forall p :: p in views ==> TableValid(p)
      requires forall p, q :: p in views && q in views && p != q ==> p in Repr && q in Repr && p.Repr !! q.Repr
      ensures Valid()
    {
      MapAllPairs(Viewed(views), words.table);
    }

    lemma Parts()
      requires Valid()
      ensures this in Repr && words in Repr && words.Repr <= Repr && this !in words.Repr && words.Valid()
      ensures table == MapTable(Viewed(views), words.table) && OwnTables(words.table, views)
      ensures forall p :: p in views ==> TableValid(p)
      ensures forall p, q :: p in views && q in views && p != q ==> p in Repr && q in Repr && p.Repr !! q.Repr
    {
    }

    // The tables have nothing to do with each other.
    lemma Apart()
      requires Valid()
      ensures words in words.Repr
      ensures forall p :: p in views ==>
                && p in p.Repr && p.Repr <= Repr && this !in p.Repr && p.Repr !! words.Repr
                && p.Valid() && p.table == views[p]
      ensures forall p, q :: p in views && q in views && p != q ==> p.Repr !! q.Repr
    {
      hide *;
      Parts();
      forall p | p in views
        ensures p.Repr <= Repr && this !in p.Repr && p.Repr !! words.Repr && p.Valid() && p.table == views[p]
      {
        TableParts(p);
      }
    }

    lemma TableParts(p: HashTable<Value>)
      requires TableValid(p)
      ensures p in Repr && p.Repr <= Repr && this !in p.Repr && words in Repr && p.Repr !! words.Repr
      ensures p.Valid() && p in views && p.table == views[p]
    {
    }

    lemma TableIntro(p: HashTable<Value>)
      requires p in Repr && p.Repr <= Repr && this !in p.Repr && words in Repr && p.Repr !! words.Repr
      requires p.Valid() && p in views && p.table == views[p]
      ensures TableValid(p)
    {
    }

    // A table of documents that has not been touched is still a part of the index.
    twostate lemma SameTable(q: HashTable<Value>)
      requires old(TableValid(q)) && unchanged(q) && forall o :: o in old(q.Repr) ==> unchanged(o)
      requires old(Repr) <= Repr && q.Repr !! words.Repr && q in views && views[q] == old(views)[q]
      ensures TableValid(q)
    {
    }

    // After a change to nothing but the table of documents p and the ghost fields.
    twostate lemma OtherTables(p: HashTable<Value>)
      requires old(Valid()) && p in old(views) && views == old(views)[p := p.table]
      requires Repr == old(Repr) + p.Repr && fresh(p.Repr - old(p.Repr)) && p.Valid()
      requires forall o: object | o in old(Repr) && o != this && o !in old(p.Repr) :: unchanged(o)
      ensures words in words.Repr && words.Repr <= Repr && this !in words.Repr && words.Valid()
      ensures words.table == old(words.table) && this in Repr && words in Repr
      ensures forall q :: q in views ==> TableValid(q)
      ensures forall q, r :: q in views && r in views && q != r ==> q in Repr && r in Repr && q.Repr !! r.Repr
    {
      hide MapTable, OwnTables, T.Size;
      assert old(TableValid(p));
      assert unchanged(words) && forall o :: o in old(words.Repr) ==> unchanged(o);
      forall q | q in views
        ensures TableValid(q) && (q != p ==> q.Repr == old(q.Repr) && q.Repr !! p.Repr)
      {
        assert old(TableValid(q));
        if q != p {
          SameTable(q);
        }
      }
    }

    // MemIndex_Allocate.
    constructor ()
      ensures Valid() && fresh(Repr) && IsMemIndex(table) && table == T.EmptyTable(16)
    {
      var index := new HashTable<WordPostings>(16);
      words, views, table := index, map[], T.EmptyTable<Value>(16);
      Repr := {this} + index.Repr;
      new;
      hide *;
      NewIndex();
    }

    lemma NewIndex()
      requires words.Valid() && words.table == T.EmptyTable(16) && this !in words.Repr && words in words.Repr
      requires views == map[] && table == T.EmptyTable<Value>(16) && Repr == {this} + words.Repr
      ensures Valid() && IsMemIndex(table) && forall key :: T.Find(table, key) == None
    {
      hide *;
      NoWordsYet();
      NothingViewed();
      Intro();
    }

    // The index as a client sees it that goes through all the chains itself.
    method Chains() returns (t: Table<Value>)
      requires Valid()
      ensures t == table
    {
      hide *;
      Parts();
      var chains := words.Chains();
      t := [];
      for b := 0 to |chains|
        invariant t == table[..b]
      {
        var kvs := ReadBucket(chains, b);
        t := t + [Chain(kvs)];
        assert table[..b + 1] == table[..b] + [table[b]];
      }
      assert table[..|chains|] == table;
    }

    method ReadBucket(chains: Table<WordPostings>, b: nat) returns (kvs: seq<KV<Value>>)
      requires Valid() && b < |chains| && chains == words.table
      ensures b < |table| && Chain(kvs) == table[b]
    {
      hide *;
      Parts();
      Apart();
      kvs := [];
      var chain := chains[b].kvs;
      assert table[b].kvs[..0] == [];
      for j := 0 to |chain|
        invariant |table[b].kvs| == |chain| && kvs == table[b].kvs[..j]
      {
        MappedChain(views, chains, b, j);
        var wp := chain[j].value;
        var documents := wp.postings.Chains();
        kvs := kvs + [KV(chain[j].key, Postings(wp.word, documents))];
        assert table[b].kvs[..j + 1] == table[b].kvs[..j] + [table[b].kvs[j]];
      }
      assert table[b].kvs[..|chain|] == table[b].kvs;
    }

    // HashTable_Find on the index, and the structure that it leads to.
    method FindPostings(key: Key) returns (r: Option<WordPostings>)
      requires Valid()
      ensures r.None? <==> T.Find(table, key).None?
      ensures r.Some? ==>
                && r.value.postings in views && TableValid(r.value.postings)
                && T.Find(words.table, key) == Some(KV(key, r.value))
                && T.Find(table, key) == Some(KV(key, Postings(r.value.word, r.value.postings.table)))
    {
      hide *;
      Parts();
      MapFind(Viewed(views), words.table, key);
      var kv := words.Find(key);
      if kv.None? {
        return None;
      }
      FoundPostings(words.table, views, key);
      r := Some(kv.value.value);
      TableParts(r.value.postings);
      ViewedPair(views, kv.value);
    }

    // The index gets a new WordPostings structure with an empty table.
    method InsertWord(key: Key, word: seq<Byte>) returns (wp: WordPostings)
      requires Valid() && key == FnvHash(word) && T.Find(table, key).None?
      modifies Repr
      ensures Valid() && fresh(Repr - old(Repr)) && table == NewWord(old(table), word)
      ensures T.Find(words.table, key) == Some(KV(key, wp)) && wp.word == word && wp.postings in views
      ensures wp.postings.table == T.EmptyTable(DEFAULT_POSTINGS_CAPACITY)
    {
      hide *;
      Capacity();
      InsertedIntoResized(table, word);
      var postings := new HashTable<Value>(DEFAULT_POSTINGS_CAPACITY);
      wp := WordPostings(word, postings);
      InsertPostings(key, wp);
    }

    // HashTable_Insert of a WordPostings structure.
    method InsertPostings(key: Key, wp: WordPostings)
      requires Valid() && T.Find(table, key).None?
      requires wp.postings.Valid() && wp.postings.Repr !! Repr && wp.postings.table == T.EmptyTable(1)
      modifies Repr
      ensures Valid() && fresh(Repr - old(Repr) - wp.postings.Repr) && unchanged(wp.postings)
      ensures T.Find(words.table, key) == Some(KV(key, wp)) && wp.postings in views
      ensures table == T.InsertInto(T.Resized(old(table)), KV(key, Postings(wp.word, T.EmptyTable(1))))
    {
      hide *;
      Parts();
      Apart();
      MapFind(Viewed(views), words.table, key);
      NewWordViewed(words.table, views, key, wp);
      var _ := words.Insert(KV(key, wp));
      views := views[wp.postings := wp.postings.table];
      table := MapTable(Viewed(views), words.table);
      Repr := Repr + words.Repr + wp.postings.Repr;
      forall q | q in views && q != wp.postings
        ensures TableValid(q)
      {
        SameTable(q);
      }
      TableIntro(wp.postings);
      Intro();
    }

    // The table of a word gets the positions of a new document.
    method InsertDocument(key: Key, wp: WordPostings, docId: Key, positions: seq<Position>)
      requires Valid() && T.Find(words.table, key) == Some(KV(key, wp)) && wp.postings in views
      modifies Repr
      ensures Valid() && fresh(Repr - old(Repr)) && |old(wp.postings.table)| > 0 && T.Find(old(table), key).Some?
      ensures table == T.SetIn(old(table), key, Postings(wp.word, Posted(old(wp.postings.table), docId, positions)))
    {
      hide *;
      Parts();
      Apart();
      var p := wp.postings;
      PostedParts(p.table, docId, positions);
      PostedViewed(words.table, views, key, wp, Posted(p.table, docId, positions));
      var _ := p.Insert(KV(docId, Positions(positions)));
      views := views[p := p.table];
      table := MapTable(Viewed(views), words.table);
      Repr := Repr + p.Repr;
      OtherTables(p);
      Intro();
    }
  }

  lemma MappedChain(views: Views, words: Table<WordPostings>, b: nat, j: nat)
    requires b < |words| && j < |words[b].kvs| && OwnTables(words, views)
    ensures words[b].kvs[j].value.postings in views
    ensures var kv := words[b].kvs[j]; var mapped := MapTable(Viewed(views), words)[b].kvs;
            && |mapped| == |words[b].kvs|
            && mapped[j] == KV(kv.key, Postings(kv.value.word, views[kv.value.postings]))
  {
    T.AllPairsMember(words, words[b].kvs[j]);
    hide T.AllPairs;
  }

  lemma Capacity()
    ensures DEFAULT_POSTINGS_CAPACITY == 1
  {
  }

  lemma ViewedPair(views: Views, kv: KV<WordPostings>)
    requires kv.value.postings in views
    ensures MapPair(Viewed(views), kv) == KV(kv.key, Postings(kv.value.word, views[kv.value.postings]))
  {
  }

  lemma NoWordsYet()
    ensures var t := T.EmptyTable<Value>(16);
            IsMemIndex(t) && |t| > 0 && forall key :: T.Find(t, key) == None
  {
  }

  // The checks that no other word has this hash and that the document is new for the
  // word are discharged.
  method AddPostingList(index: MemIndex, word: seq<Byte>, docId: Key, postings: seq<Position>)
    requires index.Valid() && IsMemIndex(index.table) && CanAdd(index.table, word, docId)
    modifies index.Repr
    ensures index.Valid() && fresh(index.Repr - old(index.Repr)) && |old(index.table)| > 0
    ensures index.table == Added(old(index.table), word, docId, postings)
  {
    hide *;
    var key := FNVHash64(word);
    CanAddParts(index.table, word, docId);
    AddedCases(index.table, word, docId, postings);
    var found := index.FindPostings(key);
    var wp;
    if found.None? {
      NewWordKeeps(index.table, word, docId);
      wp := index.InsertWord(key, word);
    } else {
      wp := found.value;
    }
    index.InsertDocument(key, wp, docId, postings);
  }

  // The index after a document has been posted for a word.
  function Added(t: Table<Value>, word: seq<Byte>, doc: Key, positions: seq<Position>): (r: Table<Value>)
    requires |t| > 0
    ensures |r| > 0
  {
    var key := FnvHash(word);
    var t' := if T.Find(t, key).None? then NewWord(t, word) else t;
    match T.Find(t', key)
    case None => t'
    case Some(kv) =>
      if kv.value.Postings? && |kv.value.table| > 0 then
        T.SetIn(t', key, Postings(word, Posted(kv.value.table, doc, positions)))
      else t'
  }

  lemma AddedCases(t: Table<Value>, word: seq<Byte>, doc: Key, positions: seq<Position>)
    requires IsMemIndex(t) && |t| > 0 && CanAdd(t, word, doc) && T.Size(t) <= 3 * |t|
    ensures var t' := if T.Find(t, FnvHash(word)).None? then NewWord(t, word) else t;
            && IsMemIndex(t') && |t'| > 0 && CanAdd(t', word, doc) && T.Find(t', FnvHash(word)).Some?
            && T.Find(t', FnvHash(word)).value.value.Postings? && |T.Find(t', FnvHash(word)).value.value.table| > 0
            && Added(t, word, doc, positions)
               == T.SetIn(t', FnvHash(word),
                          Postings(word, Posted(T.Find(t', FnvHash(word)).value.value.table, doc, positions)))
  {
    hide T.Find, T.SetIn, FnvHash, IsMemIndex, NewWord, Posted;
    if T.Find(t, FnvHash(word)).None? {
      NewWordKeeps(t, word, doc);
      Pairs(NewWord(t, word), 0);
    }
  }

  // The positions of this word in this document are recorded, and nothing else changes.
  lemma AddedKeeps(t: Table<Value>, word: seq<Byte>, doc: Key, positions: seq<Position>)
    requires IsMemIndex(t) && |t| > 0 && CanAdd(t, word, doc) && T.Size(t) <= 3 * |t|
    ensures var t' := Added(t, word, doc, positions);
            && IsMemIndex(t') && T.Size(t') <= 3 * |t'|
            && (forall w, d: Key :: PositionsAt(t', w, d)
                                 == if w == word && d == doc then Some(positions) else PositionsAt(t, w, d))
            && (forall key :: key != FnvHash(word) ==> T.Find(t', key) == T.Find(t, key))
            && FiledUnder(t', word)
  {
    hide *;
    Pairs(t, 0);
    AddedCases(t, word, doc, positions);
    var t' := if T.Find(t, FnvHash(word)).None? then NewWord(t, word) else t;
    if T.Find(t, FnvHash(word)).None? {
      NewWordKeeps(t, word, doc);
      NewWordSize(t, word);
    }
    Pairs(t', 0);
    PostKeeps(t', word, doc, positions);
    WithPostedValue(t', word, doc, positions);
    T.SetWellFormed(t', FnvHash(word),
        Postings(word, Posted(T.Find(t', FnvHash(word)).value.value.table, doc, positions)));
  }

  lemma NewWordSize(t: Table<Value>, word: seq<Byte>)
    requires T.WellFormed(t) && T.Size(t) <= 3 * |t|
    ensures |t| > 0 && T.Size(NewWord(t, word)) <= 3 * |NewWord(t, word)|
  {
    hide T.InsertInto, T.Resized, T.Size, FnvHash;
    var kv := KV(FnvHash(word), Postings(word, T.EmptyTable(DEFAULT_POSTINGS_CAPACITY)));
    T.ResizedSame(t);
    T.InsertSize(T.Resized(t), kv);
  }

  lemma CanAddParts(t: Table<Value>, word: seq<Byte>, doc: Key)
    requires |t| > 0 && CanAdd(t, word, doc)
    ensures var r := T.Find(t, FnvHash(word));
            r.Some? ==> r.value.value.Postings? && r.value.value.word == word && |r.value.value.table| > 0
  {
  }

  lemma InsertedIntoResized(t: Table<Value>, word: seq<Byte>)
    requires |t| > 0
    ensures NewWord(t, word)
         == T.InsertInto(T.Resized(t), KV(FnvHash(word), Postings(word, T.EmptyTable(DEFAULT_POSTINGS_CAPACITY))))
  {
  }

  lemma PostedParts(table: Table<Value>, doc: Key, positions: seq<Position>)
    requires |table| > 0
    ensures Posted(table, doc, positions) == T.InsertInto(T.Resized(table), KV(doc, Positions(positions)))
  {
  }

  lemma PostedKeeps(table: Table<Value>, doc: Key, positions: seq<Position>)
    requires IsPostingTable(table) && NotOverfull(table) && T.Find(table, doc).None?
    ensures var r := Posted(table, doc, positions);
            && |r| > 0 && |table| > 0 && IsPostingTable(r) && NotOverfull(r)
            && forall d: Key ::
                 T.Find(r, d) == if d == doc then Some(KV(doc, Positions(positions))) else T.Find(table, d)
  {
    hide T.Find, T.InsertInto, T.Resized, IsPostingTable, T.Size;
    Documents(table);
    var room, kv := T.Resized(table), KV(doc, Positions(positions));
    T.ResizedSame(table);
    T.InsertWellFormed(room, kv);
    T.InsertSize(room, kv);
    var r := T.InsertInto(room, kv);
    forall d: Key
      ensures T.Find(r, d) == if d == doc then Some(kv) else T.Find(table, d)
    {
      T.InsertFind(room, kv, d);
    }
    PostingsFromFinds(r);
  }

  lemma EmptyPostings()
    ensures var e := T.EmptyTable<Value>(DEFAULT_POSTINGS_CAPACITY);
            IsPostingTable(e) && NotOverfull(e) && |e| == 1 && forall d: Key :: T.Find(e, d) == None
  {
    T.EmptySize<Value>(DEFAULT_POSTINGS_CAPACITY);
  }

  lemma NewWordKeeps(t: Table<Value>, word: seq<Byte>, doc: Key)
    requires IsMemIndex(t) && T.Size(t) <= 3 * |t| && T.Find(t, FnvHash(word)).None?
    ensures IsMemIndex(NewWord(t, word)) && CanAdd(NewWord(t, word), word, doc)
    ensures T.Find(NewWord(t, word), FnvHash(word))
            == Some(KV(FnvHash(word), Postings(word, T.EmptyTable(DEFAULT_POSTINGS_CAPACITY))))
    ensures forall w, d: Key :: PositionsAt(NewWord(t, word), w, d) == PositionsAt(t, w, d)
    ensures forall key :: key != FnvHash(word) ==> T.Find(NewWord(t, word), key) == T.Find(t, key)
  {
    hide T.Find, T.InsertInto, T.Resized, T.Size, FnvHash, T.EmptyTable, IsMemIndex, IsPostingTable;
    Pairs(t, 0);
    EmptyPostings();
    var room, kv := T.Resized(t), KV(FnvHash(word), Postings(word, T.EmptyTable(DEFAULT_POSTINGS_CAPACITY)));
    T.ResizedSame(t);
    T.InsertWellFormed(room, kv);
    var t' := T.InsertInto(room, kv);
    forall key
      ensures T.Find(t', key) == if key == FnvHash(word) then Some(kv) else T.Find(t, key)
      ensures GoodPair(T.Find(t', key))
    {
      T.InsertFind(room, kv, key);
      Pairs(t, key);
    }
    FromFinds(t');
  }

  // Write the posted table of a word that the index has.
  function WithPosted(t: Table<Value>, word: seq<Byte>, doc: Key, positions: seq<Position>): Table<Value>
    requires |t| > 0 && CanAdd(t, word, doc) && T.Find(t, FnvHash(word)).Some?
  {
    var key := FnvHash(word);
    T.SetIn(t, key, Postings(word, Posted(T.Find(t, key).value.value.table, doc, positions)))
  }

  lemma WithPostedValue(t: Table<Value>, word: seq<Byte>, doc: Key, positions: seq<Position>)
    requires |t| > 0 && CanAdd(t, word, doc) && T.Find(t, FnvHash(word)).Some?
    ensures WithPosted(t, word, doc, positions)
         == T.SetIn(t, FnvHash(word),
             Postings(word, Posted(T.Find(t, FnvHash(word)).value.value.table, doc, positions)))
  {
  }

  lemma PostKeeps(t: Table<Value>, word: seq<Byte>, doc: Key, positions: seq<Position>)
    requires IsMemIndex(t) && CanAdd(t, word, doc) && T.Find(t, FnvHash(word)).Some?
    ensures var t' := WithPosted(t, word, doc, positions);
            && IsMemIndex(t')
            && (forall w, d: Key :: PositionsAt(t', w, d)
                                 == if w == word && d == doc then Some(positions) else PositionsAt(t, w, d))
            && (forall key :: key != FnvHash(word) ==> T.Find(t', key) == T.Find(t, key))
            && FiledUnder(t', word)
  {
    hide T.Find, T.SetIn, FnvHash, IsMemIndex, IsPostingTable, Posted;
    var key := FnvHash(word);
    Pairs(t, key);
    var table := T.Find(t, key).value.value.table;
    PostedKeeps(table, doc, positions);
    var value := Postings(word, Posted(table, doc, positions));
    T.SetWellFormed(t, key, value);
    var t' := T.SetIn(t, key, value);
    forall k
      ensures T.Find(t', k) == if k == key then Some(KV(key, value)) else T.Find(t, k)
      ensures GoodPair(T.Find(t', k))
    {
      T.SetFind(t, key, value, k);
      Pairs(t, k);
    }
    FromFinds(t');
  }

  // ----- searching -----

  // MI_SearchResultComparator.
  function CompareRanks(a: SearchResult, b: SearchResult): int
  {
    if a.rank > b.rank then 1 else if a.rank < b.rank then -1 else 0
  }

  function CountIn(kv: KV<Value>): int
  {
    if kv.value.Positions? then |kv.value.positions| else 0
  }

  // One result for every document of a table.
  function Hits(kvs: seq<KV<Value>>): (rs: seq<SearchResult>)
    ensures |rs| == |kvs|
    ensures forall i :: 0 <= i < |kvs| ==> rs[i] == SearchResult(kvs[i].key, CountIn(kvs[i]))
  {
    if kvs == [] then [] else Hits(Init(kvs)) + [SearchResult(Last(kvs).key, CountIn(Last(kvs)))]
  }

  // The results whose documents a further word has too, with its count added.
  function Narrow(rs: seq<SearchResult>, table: Table<Value>): (r: seq<SearchResult>)
    requires |table| > 0
    ensures |r| <= |rs|
  {
    if rs == [] then [] else Narrow(Init(rs), table) + Narrowed(Last(rs), table)
  }

  function Narrowed(sr: SearchResult, table: Table<Value>): (r: seq<SearchResult>)
    requires |table| > 0
    ensures |r| <= 1
  {
    match T.Find(table, sr.docId)
    case None => []
    case Some(kv) => [SearchResult(sr.docId, sr.rank + CountIn(kv))]
  }

  ghost predicate AllTables(tables: seq<Table<Value>>)
  {
    forall i :: 0 <= i < |tables| ==> IsPostingTable(tables[i])
  }

  // The results that are left after all the words, in the order of the first.
  function Survivors(tables: seq<Table<Value>>): seq<SearchResult>
    requires tables != [] && forall i :: 0 <= i < |tables| ==> |tables[i]| > 0
  {
    if |tables| == 1 then Hits(T.AllPairs(tables[0])) else Narrow(Survivors(Init(tables)), Last(tables))
  }

  // The document is in every table.
  ghost predicate InAll(tables: seq<Table<Value>>, doc: Key)
    requires AllTables(tables)
  {
    forall i :: 0 <= i < |tables| ==> T.Find(tables[i], doc).Some?
  }

  // The number of times the words occur in the document, all told.
  function Occurrences(tables: seq<Table<Value>>, doc: Key): int
    requires forall i :: 0 <= i < |tables| ==> |tables[i]| > 0
  {
    if tables == [] then 0
    else
      Occurrences(Init(tables), doc) + match T.Find(Last(tables), doc) case None => 0 case Some(kv) => CountIn(kv)
  }

  ghost predicate DistinctDocs(rs: seq<SearchResult>)
  {
    forall i, j :: 0 <= i < j < |rs| ==> rs[i].docId != rs[j].docId
  }

  lemma NarrowOne(rs: seq<SearchResult>, table: Table<Value>, j: nat)
    requires |table| > 0 && j < |rs|
    ensures var before, found := Narrow(rs[..j], table), T.Find(table, rs[j].docId);
            && (before + rs[j..])[|before|] == rs[j]
            && (found.Some? ==>
                  var sr := SearchResult(rs[j].docId, rs[j].rank + CountIn(found.value));
                  && Narrow(rs[..j + 1], table) == before + [sr]
                  && (before + rs[j..])[|before| := sr] == before + [sr] + rs[j + 1..])
            && (found.None? ==>
                  && Narrow(rs[..j + 1], table) == before
                  && (before + rs[j..])[..|before|] + (before + rs[j..])[|before| + 1..] == before + rs[j + 1..])
  {
    hide T.Find;
    PrefixSnoc(rs, j);
    var before := Narrow(rs[..j], table);
    assert rs[j..] == [rs[j]] + rs[j + 1..];
    assert Narrow(rs[..j + 1], table) == before + Narrowed(rs[j], table);
  }

  lemma HitsMatch(table: Table<Value>)
    requires T.WellFormed(table)
    ensures DistinctDocs(Hits(T.AllPairs(table)))
    ensures forall sr :: sr in Hits(T.AllPairs(table)) <==> Narrowed(SearchResult(sr.docId, 0), table) == [sr]
  {
    hide T.AllPairs, T.Find, T.FindIn, Hits;
    var kvs := T.AllPairs(table);
    T.AllPairsDistinct(table, |table|);
    forall sr
      ensures sr in Hits(kvs) <==> Narrowed(SearchResult(sr.docId, 0), table) == [sr]
    {
      if sr in Hits(kvs) {
        var i :| 0 <= i < |kvs| && Hits(kvs)[i] == sr;
        assert kvs[i] in kvs;
        T.AllPairsAreFound(table, kvs[i]);
      }
      var found := T.Find(table, sr.docId);
      if found.Some? {
        T.FoundKey(table, sr.docId);
        T.AllPairsAreFound(table, found.value);
        var i :| 0 <= i < |kvs| && kvs[i] == found.value;
        assert Hits(kvs)[i] == SearchResult(sr.docId, CountIn(found.value));
      }
    }
  }

  // A narrowed result comes from the result of the same document.
  ghost predicate ComesFrom(sr: SearchResult, rs: seq<SearchResult>, table: Table<Value>)
    requires |table| > 0
  {
    var found := T.Find(table, sr.docId);
    found.Some? && SearchResult(sr.docId, sr.rank - CountIn(found.value)) in rs
  }

  lemma {:induction false} NarrowMatch(rs: seq<SearchResult>, table: Table<Value>)
    requires |table| > 0 && DistinctDocs(rs)
    ensures DistinctDocs(Narrow(rs, table))
    ensures forall sr :: sr in Narrow(rs, table) <==> ComesFrom(sr, rs, table)
  {
    hide T.Find;
    if rs != [] {
      var before, last := Init(rs), Last(rs);
      NarrowMatch(before, table);
      var was, added := Narrow(before, table), Narrowed(last, table);
      assert rs == before + [last];
      forall sr
        ensures sr in Narrow(rs, table) <==> ComesFrom(sr, rs, table)
      {
        assert sr in Narrow(rs, table) <==> sr in was || sr in added;
      }
      forall i, j | 0 <= i < j < |Narrow(rs, table)|
        ensures Narrow(rs, table)[i].docId != Narrow(rs, table)[j].docId
      {
        if j == |was| {
          assert was[i] in was && ComesFrom(was[i], before, table);
        }
      }
    }
  }

  // The survivors are the documents that have every word, each once, ranked by
  // the total number of occurrences.
  lemma {:induction false} SurvivorsMatch(tables: seq<Table<Value>>)
    requires tables != [] && AllTables(tables)
    ensures DistinctDocs(Survivors(tables))
    ensures forall sr :: sr in Survivors(tables) <==>
            InAll(tables, sr.docId) && sr.rank == Occurrences(tables, sr.docId)
  {
    hide T.Find, Narrow, Hits, T.AllPairs;
    var last := Last(tables);
    if |tables| == 1 {
      HitsMatch(last);
      OneTable(tables);
    } else {
      var before := Survivors(Init(tables));
      SurvivorsMatch(Init(tables));
      NarrowMatch(before, last);
      forall sr
        ensures sr in Survivors(tables) <==> InAll(tables, sr.docId) && sr.rank == Occurrences(tables, sr.docId)
      {
        InAllSnoc(tables, sr.docId);
      }
    }
  }

  lemma OneTable(tables: seq<Table<Value>>)
    requires |tables| == 1 && AllTables(tables)
    ensures forall d: Key :: InAll(tables, d) <==> T.Find(tables[0], d).Some?
    ensures forall d: Key ::
              Occurrences(tables, d) == match T.Find(tables[0], d) case None => 0 case Some(kv) => CountIn(kv)
  {
    hide T.Find;
    assert Init(tables) == [];
  }

  lemma InAllSnoc(tables: seq<Table<Value>>, doc: Key)
    requires tables != [] && AllTables(tables)
    ensures InAll(tables, doc) <==> InAll(Init(tables), doc) && T.Find(Last(tables), doc).Some?
  {
    hide T.Find;
    assert tables == Init(tables) + [Last(tables)];
  }

  // The tables of the words of a query, when memory has one for every word.
  function TablesFor(t: Table<Value>, query: seq<seq<Byte>>): (r: Option<seq<Table<Value>>>)
    requires |t| > 0
    ensures r.Some? ==> |r.value| == |query|
    ensures r.Some? ==> forall i :: 0 <= i < |query| ==> HashPostings(t, query[i]) == Some(r.value[i])
    ensures r.None? ==> exists i :: 0 <= i < |query| && HashPostings(t, query[i]) == None
  {
    if query == [] then Some([])
    else
      match TablesFor(t, Init(query))
      case None => None
      case Some(tables) =>
        match HashPostings(t, Last(query))
        case None => None
        case Some(table) => Some(tables + [table])
  }

  // One pass over the results for one further word.  Removing the tail moves the
  // iterator back, but then every result has been examined.
  method NarrowList(retList: LinkedList<SearchResult>, postings: HashTable<Value>, ghost owned: set<Node<SearchResult>>)
    requires retList.Valid() && Within(retList.nodes, owned)
    requires postings.Valid() && retList !in postings.Repr && postings.Repr !! owned
    modifies retList, owned
    ensures retList.Valid() && Within(retList.nodes, owned) && |postings.table| > 0
    ensures retList.Contents() == Narrow(old(retList.Contents()), postings.table)
  {
    hide *;
    var llIt := new LLIterator(retList);
    ApartParts(llIt, postings, owned);
    NarrowLoop(llIt, postings, owned);
  }

  // The nodes are among those that may be written to.
  ghost predicate Within<N>(nodes: seq<N>, owned: set<N>)
  {
    forall i :: 0 <= i < |nodes| ==> nodes[i] in owned
  }

  // The iterator and the nodes it may write to have nothing to do with the table.
  ghost predicate Apart(llIt: LLIterator<SearchResult>, postings: HashTable<Value>, owned: set<Node<SearchResult>>)
    reads postings
  {
    llIt !in postings.Repr && llIt.list !in postings.Repr && postings.Repr !! owned
  }

  method NarrowLoop(llIt: LLIterator<SearchResult>, postings: HashTable<Value>, ghost owned: set<Node<SearchResult>>)
    requires llIt.Valid() && llIt.idx == 0 && Within(llIt.list.nodes, owned)
    requires postings.Valid() && Apart(llIt, postings, owned)
    modifies llIt, llIt.list, owned
    ensures llIt.list.Valid() && Within(llIt.list.nodes, owned) && |postings.table| > 0
    ensures llIt.list.Contents() == Narrow(old(llIt.list.Contents()), postings.table)
  {
    hide *;
    ghost var rs, table := llIt.list.Contents(), postings.table;
    llIt.list.ValidNodes();
    HalfwayStart(rs, table);
    var numDocs := llIt.list.numElements;
    for j := 0 to numDocs
      invariant llIt.Valid() && numDocs == |rs| && Within(llIt.list.nodes, owned)
      invariant postings.Valid() && postings.table == table && Apart(llIt, postings, owned)
      invariant Halfway(rs, table, j, llIt.list.Contents(), llIt.idx)
    {
      ghost var before, k := llIt.list.Contents(), llIt.idx;
      HalfwayReads(rs, table, j, before, k);
      ExamineNext(llIt, postings, owned);
      HalfwayOn(rs, table, j, before, k, llIt.idx);
    }
    HalfwayEnd(rs, table, llIt.list.Contents(), llIt.idx);
  }

  // j results have been examined, and those that were kept are still in front; the
  // iterator stands on the next, if any.
  ghost predicate Halfway(rs: seq<SearchResult>, table: Table<Value>, j: int, contents: seq<SearchResult>, k: int)
    requires |table| > 0 && 0 <= j <= |rs|
  {
    contents == Narrow(rs[..j], table) + rs[j..] && (j < |rs| ==> k == |contents| - (|rs| - j))
  }

  lemma HalfwayStart(rs: seq<SearchResult>, table: Table<Value>)
    requires |table| > 0
    ensures Halfway(rs, table, 0, rs, 0)
  {
  }

  lemma HalfwayEnd(rs: seq<SearchResult>, table: Table<Value>, contents: seq<SearchResult>, k: int)
    requires |table| > 0 && Halfway(rs, table, |rs|, contents, k)
    ensures contents == Narrow(rs, table)
  {
    assert rs[..|rs|] == rs;
  }

  lemma HalfwayReads(rs: seq<SearchResult>, table: Table<Value>, j: int, contents: seq<SearchResult>, k: int)
    requires |table| > 0 && 0 <= j < |rs| && Halfway(rs, table, j, contents, k)
    ensures 0 <= k < |contents|
  {
  }

  lemma HalfwayOn(rs: seq<SearchResult>, table: Table<Value>, j: int, contents: seq<SearchResult>, k: int, k': int)
    requires |table| > 0 && 0 <= j < |rs| && Halfway(rs, table, j, contents, k) && 0 <= k < |contents|
    requires k + 1 < |contents| ==> |Examined(contents, k, table)| - k' == |contents| - k - 1
    ensures Halfway(rs, table, j + 1, Examined(contents, k, table), k')
  {
    hide T.Find, Narrow;
    NarrowOne(rs, table, j);
  }

  // The results after the one at k has been kept, its rank raised, or removed.
  function Examined(rs: seq<SearchResult>, k: int, table: Table<Value>): seq<SearchResult>
    requires |table| > 0 && 0 <= k < |rs|
  {
    match T.Find(table, rs[k].docId)
    case Some(kv) => rs[k := SearchResult(rs[k].docId, rs[k].rank + CountIn(kv))]
    case None => rs[..k] + rs[k + 1..]
  }

  lemma ExaminedValue(rs: seq<SearchResult>, k: int, table: Table<Value>)
    requires |table| > 0 && 0 <= k < |rs|
    ensures Examined(rs, k, table) ==
            match T.Find(table, rs[k].docId)
            case Some(kv) => rs[k := SearchResult(rs[k].docId, rs[k].rank + CountIn(kv))]
            case None => rs[..k] + rs[k + 1..]
  {
  }

  lemma WithinIndex<N>(nodes: seq<N>, owned: set<N>)
    requires Within(nodes, owned)
    ensures forall i :: 0 <= i < |nodes| ==> nodes[i] in owned
  {
  }

  lemma WithinIntro<N>(nodes: seq<N>, owned: set<N>)
    requires forall i :: 0 <= i < |nodes| ==> nodes[i] in owned
    ensures Within(nodes, owned)
  {
  }

  // The body of the loop, with what it keeps folded into predicates.
  method ExamineNext(llIt: LLIterator<SearchResult>, postings: HashTable<Value>, ghost owned: set<Node<SearchResult>>)
    requires llIt.Valid() && llIt.idx < |llIt.list.nodes| && Within(llIt.list.nodes, owned)
    requires postings.Valid() && Apart(llIt, postings, owned)
    modifies llIt, llIt.list, owned
    ensures llIt.Valid() && llIt.list.Contents() == Examined(old(llIt.list.Contents()), old(llIt.idx), postings.table)
    ensures Within(llIt.list.nodes, owned)
    ensures postings.Valid() && postings.table == old(postings.table) && Apart(llIt, postings, owned)
    ensures old(llIt.idx) + 1 < |old(llIt.list.nodes)| ==>
              |llIt.list.nodes| - llIt.idx == |old(llIt.list.nodes)| - old(llIt.idx) - 1
  {
    hide *;
    WithinIndex(llIt.list.nodes, owned);
    KeepOrRemove(llIt, postings, owned);
    WithinIntro(llIt.list.nodes, owned);
  }

  method KeepOrRemove(llIt: LLIterator<SearchResult>, postings: HashTable<Value>, ghost owned: set<Node<SearchResult>>)
    requires llIt.Valid() && llIt.idx < |llIt.list.nodes|
    requires forall i :: 0 <= i < |llIt.list.nodes| ==> llIt.list.nodes[i] in owned
    requires postings.Valid() && Apart(llIt, postings, owned)
    modifies llIt, llIt.list, owned
    ensures llIt.Valid() && llIt.list.Contents() == Examined(old(llIt.list.Contents()), old(llIt.idx), postings.table)
    ensures postings.Valid() && postings.table == old(postings.table) && Apart(llIt, postings, owned)
    ensures old(llIt.idx) + 1 < |old(llIt.list.nodes)| ==>
              |llIt.list.nodes| - llIt.idx == |old(llIt.list.nodes)| - old(llIt.idx) - 1
    ensures forall i :: 0 <= i < |llIt.list.nodes| ==> llIt.list.nodes[i] in owned
  {
    hide *;
    ApartParts(llIt, postings, owned);
    ExaminedValue(llIt.list.Contents(), llIt.idx, postings.table);
    var sr := llIt.Get();
    var kv := postings.Find(sr.docId);
    if kv.Some? {
      llIt.Set(SearchResult(sr.docId, sr.rank + CountIn(kv.value)));
      var _ := llIt.Next();
    } else {
      var _ := llIt.Remove();
    }
  }

  lemma ApartParts(llIt: LLIterator<SearchResult>, postings: HashTable<Value>, owned: set<Node<SearchResult>>)
    ensures Apart(llIt, postings, owned) <==>
            llIt !in postings.Repr && llIt.list !in postings.Repr && postings.Repr !! owned
  {
  }

  // The loop over the documents of the first word.
  method AppendHits(retList: LinkedList<SearchResult>, postings: HashTable<Value>)
    returns (ghost owned: set<Node<SearchResult>>)
    requires retList.Valid() && retList.nodes == [] && postings.Valid() && retList !in postings.Repr
    modifies retList
    ensures retList.Valid() && retList.Contents() == Hits(T.AllPairs(postings.table))
    ensures fresh(owned) && Within(retList.nodes, owned)
  {
    hide *;
    ghost var table, pairs := postings.table, T.AllPairs(postings.table);
    HitsNothing(pairs);
    T.SizeValue(table);
    retList.ValidNodes();
    owned := {};
    WithinIntro(retList.nodes, owned);
    var it := new HTIterator(postings);
    var valid := it.IsValid();
    while valid
      invariant retList.Valid() && fresh(owned) && Within(retList.nodes, owned)
      invariant it.Valid() && it.ht == postings && fresh(it) && (it.bucketIt != null ==> fresh(it.bucketIt))
      invariant postings.table == table && retList !in postings.Repr
      invariant it.pos <= |pairs| && (valid <==> it.pos < |pairs|)
      invariant retList.Contents() == Hits(pairs[..it.pos])
      decreases |pairs| - it.pos
    {
      var kv := it.Get();
      HitsOne(pairs, it.pos);
      owned := AppendHit(retList, SearchResult(kv.value.key, CountIn(kv.value)), owned);
      valid := it.Next();
    }
  }

  // LinkedList_Append, with the nodes that may be written to.
  method AppendHit(retList: LinkedList<SearchResult>, sr: SearchResult, ghost before: set<Node<SearchResult>>)
    returns (ghost owned: set<Node<SearchResult>>)
    requires retList.Valid() && Within(retList.nodes, before)
    modifies retList, before
    ensures retList.Valid() && retList.Contents() == old(retList.Contents()) + [sr]
    ensures fresh(owned - before) && Within(retList.nodes, owned)
  {
    hide *;
    WithinIndex(retList.nodes, before);
    retList.ValidNodes();
    ghost var nodes := retList.nodes;
    retList.Append(sr);
    owned := before + {retList.nodes[|nodes|]};
    assert forall i :: 0 <= i < |nodes| ==> retList.nodes[i] == retList.nodes[..|nodes|][i];
    WithinIntro(retList.nodes, owned);
  }

  lemma HitsNothing(kvs: seq<KV<Value>>)
    ensures Hits(kvs[..0]) == [] && kvs[..|kvs|] == kvs
  {
  }

  lemma HitsOne(kvs: seq<KV<Value>>, k: nat)
    requires k < |kvs|
    ensures Hits(kvs[..k + 1]) == Hits(kvs[..k]) + [SearchResult(kvs[k].key, CountIn(kvs[k]))]
  {
    PrefixSnoc(kvs, k);
  }

  // The body of the loop over the remaining words.
  method NarrowByWord(index: MemIndex, query: seq<seq<Byte>>, i: int, retList: LinkedList<SearchResult>,
                      ghost owned: set<Node<SearchResult>>)
    returns (any: bool)
    requires index.Valid() && IsMemIndex(index.table) && retList.Valid() && Within(retList.nodes, owned)
    requires retList !in index.Repr && index.Repr !! owned
    requires 1 <= i < |query| && SoFar(index.table, query, i) == Some(retList.Contents())
    modifies retList, owned
    ensures any ==> retList.Valid() && Within(retList.nodes, owned)
    ensures any ==> SoFar(index.table, query, i + 1) == Some(retList.Contents()) && retList.Contents() != []
    ensures !any ==> Answer(index.table, query) == None
  {
    hide *;
    AfterNextWord(index.table, query, i);
    var key := FNVHash64(query[i]);
    var found := index.FindPostings(key);
    if found.None? {
      Decided(index.table, query, i + 1);
      return false;
    }
    index.TableParts(found.value.postings);
    NarrowList(retList, found.value.postings, owned);
    retList.ValidNodes();
    any := retList.numElements != 0;
    if !any {
      Decided(index.table, query, i + 1);
    }
  }

  // The loop over the remaining words.
  method NarrowByOthers(index: MemIndex, query: seq<seq<Byte>>, retList: LinkedList<SearchResult>,
                        ghost owned: set<Node<SearchResult>>)
    returns (any: bool)
    requires index.Valid() && IsMemIndex(index.table) && retList.Valid() && Within(retList.nodes, owned)
    requires retList !in index.Repr && index.Repr !! owned
    requires |query| > 1 && SoFar(index.table, query, 1) == Some(retList.Contents())
    modifies retList, owned
    ensures any ==> retList.Valid() && Within(retList.nodes, owned)
    ensures any ==> Answer(index.table, query) == Some(retList.Contents())
    ensures !any ==> Answer(index.table, query) == None
  {
    hide *;
    AnswerCases(index.table, query);
    for i := 1 to |query|
      invariant retList.Valid() && Within(retList.nodes, owned)
      invariant SoFar(index.table, query, i) == Some(retList.Contents())
      invariant i > 1 ==> retList.Contents() != []
    {
      any := NarrowByWord(index, query, i, retList, owned);
      if !any {
        return;
      }
    }
    any := true;
  }

  // MemIndex_Search; None is the null pointer.
  method Search(index: MemIndex, query: seq<seq<Byte>>) returns (r: Option<LinkedList<SearchResult>>)
    requires index.Valid() && IsMemIndex(index.table)
    ensures r.None? <==> Answer(index.table, query).None?
    ensures r.Some? ==>
              && fresh(r.value) && r.value.Valid()
              && Ordered(CompareRanks, false, r.value.Contents()) && HighestFirst(r.value.Contents())
              && StablePermutation(CompareRanks, Answer(index.table, query).value, r.value.Contents())
  {
    hide *;
    AnswerCases(index.table, query);
    if |query| == 0 {
      return None;
    }
    var key := FNVHash64(query[0]);
    var retList := new LinkedList<SearchResult>();
    var found := index.FindPostings(key);
    AfterFirstWord(index.table, query);
    if found.None? {
      Decided(index.table, query, 1);
      return None;
    }
    CompareRanksOrders();
    index.TableParts(found.value.postings);
    ghost var owned := AppendHits(retList, found.value.postings);
    if |query| == 1 {
      WithinIndex(retList.nodes, owned);
      Sort(retList, false, CompareRanks);
      RanksInOrder(retList.Contents());
      return Some(retList);
    }
    var any := NarrowByOthers(index, query, retList, owned);
    if !any {
      return None;
    }
    WithinIndex(retList.nodes, owned);
    Sort(retList, false, CompareRanks);
    RanksInOrder(retList.Contents());
    r := Some(retList);
  }

  ghost predicate HighestFirst(rs: seq<SearchResult>)
  {
    forall i, j :: 0 <= i < j < |rs| ==> rs[i].rank >= rs[j].rank
  }

  lemma RanksInOrder(rs: seq<SearchResult>)
    requires forall i, j :: 0 <= i < j < |rs| ==> CompareRanks(rs[i], rs[j]) >= 0
    ensures HighestFirst(rs)
  {
  }

  // The results after the first n words, before sorting; None when memory lacks one
  // of them.
  function SoFar(t: Table<Value>, query: seq<seq<Byte>>, n: int): Option<seq<SearchResult>>
    requires 1 <= n <= |query| && IsMemIndex(t)
  {
    TablesNonEmpty(t, query[..n]);
    match TablesFor(t, query[..n])
    case None => None
    case Some(tables) => Some(Survivors(tables))
  }

  // What a query should return, but for the order.
  function Answer(t: Table<Value>, query: seq<seq<Byte>>): Option<seq<SearchResult>>
    requires IsMemIndex(t)
  {
    if query == [] then None
    else
      match SoFar(t, query, |query|)
      case None => None
      case Some(rs) => if |query| > 1 && rs == [] then None else Some(rs)
  }

  lemma TablesNonEmpty(t: Table<Value>, query: seq<seq<Byte>>)
    requires IsMemIndex(t)
    ensures var r := TablesFor(t, query);
            r.Some? ==> AllTables(r.value) && forall i :: 0 <= i < |query| ==> |r.value[i]| > 0
  {
    hide FnvHash, T.Find, TablesFor;
    var r := TablesFor(t, query);
    if r.Some? {
      forall i | 0 <= i < |query|
        ensures IsPostingTable(r.value[i]) && |r.value[i]| > 0
      {
        Pairs(t, FnvHash(query[i]));
        assert HashPostings(t, query[i]) == Some(r.value[i]);
      }
    }
  }

  lemma AnswerCases(t: Table<Value>, query: seq<seq<Byte>>)
    requires IsMemIndex(t)
    ensures query == [] ==> Answer(t, query) == None
    ensures query != [] && SoFar(t, query, |query|).None? ==> Answer(t, query) == None
    ensures query != [] && SoFar(t, query, |query|).Some? ==>
              var rs := SoFar(t, query, |query|).value;
              Answer(t, query) == if |query| > 1 && rs == [] then None else Some(rs)
  {
  }

  lemma CompareRanksOrders()
    ensures TotalPreorder(CompareRanks)
  {
  }

  lemma AfterFirstWord(t: Table<Value>, query: seq<seq<Byte>>)
    requires IsMemIndex(t) && query != []
    ensures var r := T.Find(t, FnvHash(query[0]));
            && (r.Some? ==> r.value.value.Postings?)
            && SoFar(t, query, 1) == if r.None? then None else Some(Hits(T.AllPairs(r.value.value.table)))
  {
    hide FnvHash, T.Find;
    Pairs(t, FnvHash(query[0]));
  }

  lemma AfterNextWord(t: Table<Value>, query: seq<seq<Byte>>, n: int)
    requires IsMemIndex(t) && 1 <= n < |query|
    ensures var r, now := T.Find(t, FnvHash(query[n])), SoFar(t, query, n);
            && (r.Some? ==> r.value.value.Postings? && |r.value.value.table| > 0)
            && SoFar(t, query, n + 1) ==
               if now.None? || r.None? then None else Some(Narrow(now.value, r.value.value.table))
  {
    hide FnvHash, T.Find, Survivors, Narrow;
    Pairs(t, FnvHash(query[n]));
    PrefixSnoc(query, n);
    TablesNonEmpty(t, query[..n]);
    TablesNonEmpty(t, query[..n + 1]);
    var tables, more := TablesFor(t, query[..n]), TablesFor(t, query[..n + 1]);
    if more.Some? {
      assert more.value == tables.value + [HashPostings(t, query[n]).value];
      SurvivorsSnoc(tables.value, Last(more.value));
    }
  }

  lemma SurvivorsSnoc(tables: seq<Table<Value>>, table: Table<Value>)
    requires tables != [] && |table| > 0 && forall i :: 0 <= i < |tables| ==> |tables[i]| > 0
    ensures Survivors(tables + [table]) == Narrow(Survivors(tables), table)
  {
    hide Narrow;
    assert Init(tables + [table]) == tables;
  }

  // A missing word, or nothing left after the second word or a later one, decides
  // the query.
  lemma {:induction false} Decided(t: Table<Value>, query: seq<seq<Byte>>, n: int)
    requires IsMemIndex(t) && 1 <= n <= |query|
    requires SoFar(t, query, n) == None || (n > 1 && SoFar(t, query, n) == Some([]))
    ensures Answer(t, query) == None
    decreases |query| - n
  {
    hide T.Find, FnvHash, SoFar;
    if n < |query| {
      AfterNextWord(t, query, n);
      Decided(t, query, n + 1);
    }
  }

  // ----- what the answer means -----

  lemma {:induction false} DistinctOnce(rs: seq<SearchResult>, x: SearchResult)
    requires DistinctDocs(rs)
    ensures multiset(rs)[x] <= 1
  {
    if rs != [] {
      assert rs == Init(rs) + [Last(rs)];
      DistinctOnce(Init(rs), x);
      if x == Last(rs) {
        assert x !in Init(rs);
      }
    }
  }

  lemma TwiceCounted<T>(s: seq<T>, i: nat, j: nat)
    requires i < j < |s| && s[i] == s[j]
    ensures multiset(s)[s[i]] >= 2
  {
    assert s == s[..j] + s[j..];
    assert s[..j][i] in multiset(s[..j]) && s[j..][0] in multiset(s[j..]);
  }

  lemma DistinctPermuted(rs: seq<SearchResult>, sorted: seq<SearchResult>)
    requires DistinctDocs(rs) && multiset(rs) == multiset(sorted)
    ensures DistinctDocs(sorted)
  {
    forall i, j | 0 <= i < j < |sorted|
      ensures sorted[i].docId != sorted[j].docId
    {
      var a, b := sorted[i], sorted[j];
      assert a in multiset(sorted) && b in multiset(sorted);
      if a == b {
        TwiceCounted(sorted, i, j);
        DistinctOnce(rs, a);
      }
    }
  }

  // Documents that have every query word.
  ghost predicate IsMatch(t: Table<Value>, query: seq<seq<Byte>>, doc: Key)
    requires IsMemIndex(t) && TablesFor(t, query).Some?
  {
    TablesNonEmpty(t, query);
    InAll(TablesFor(t, query).value, doc)
  }

  function Rank(t: Table<Value>, query: seq<seq<Byte>>, doc: Key): int
    requires IsMemIndex(t) && TablesFor(t, query).Some?
  {
    TablesNonEmpty(t, query);
    Occurrences(TablesFor(t, query).value, doc)
  }

  // Search answers exactly the documents that have every query word, each once, and
  // ranks each by the number of occurrences of the query words in it.
  lemma SearchIsExact(t: Table<Value>, query: seq<seq<Byte>>, sorted: seq<SearchResult>)
    requires IsMemIndex(t) && Answer(t, query).Some?
    requires StablePermutation(CompareRanks, Answer(t, query).value, sorted)
    ensures TablesFor(t, query).Some? && DistinctDocs(sorted)
    ensures forall sr :: sr in sorted <==> IsMatch(t, query, sr.docId) && sr.rank == Rank(t, query, sr.docId)
  {
    assert query[..|query|] == query;
    TablesNonEmpty(t, query);
    var tables := TablesFor(t, query).value;
    SurvivorsMatch(tables);
    hide Survivors, TablesFor, T.Find, InAll, Occurrences, ClassOf;
    var rs := Answer(t, query).value;
    DistinctPermuted(rs, sorted);
    forall sr
      ensures sr in sorted <==> sr in rs
    {
      assert sr in multiset(sorted) <==> sr in multiset(rs);
    }
  }

  // The null pointer means: no words, a word that no document has, or several words
  // that no document has all of.
  lemma SearchFails(t: Table<Value>, query: seq<seq<Byte>>)
    requires IsMemIndex(t)
    ensures Answer(t, query).None? <==>
              || query == []
              || (exists i :: 0 <= i < |query| && HashPostings(t, query[i]) == None)
              || (TablesFor(t, query).Some? && |query| > 1 && forall d: Key :: !IsMatch(t, query, d))
  {
    hide T.Find, Survivors, InAll, Occurrences, FnvHash;
    if query != [] && TablesFor(t, query).Some? {
      assert query[..|query|] == query;
      TablesNonEmpty(t, query);
      var tables := TablesFor(t, query).value;
      SurvivorsMatch(tables);
      var rs := Survivors(tables);
      if rs != [] {
        assert rs[0] in rs;
        assert IsMatch(t, query, rs[0].docId);
      } else {
        forall d: Key
          ensures !IsMatch(t, query, d)
        {
          assert SearchResult(d, Occurrences(tables, d)) !in rs;
        }
      }
    }
  }
}
