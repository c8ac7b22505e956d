/**
 Files whose index fits the format of index files: a bound computed from the lengths of
 their paths and texts is enough, however the tables have been resized on the way.
 */
module SmallFiles {
  import opened Common
  import opened CrawlFiles
  import opened CrawlFileTree
  import opened DiskLayout
  import opened DocTable
  import opened EndToEnd
  import opened FileParser
  import opened Fnv
  import opened LayoutStructs
  import opened LossyNames
  import opened MemIndex
  import opened QueryProcessor
  import opened RoundTrip
  import opened SearchFiles
  import opened TableSizes
  import opened WriteIndex
  import T = Tables

  // ----- one text -----

  // The room that the postings of a word in one document need.
  function PostingRoom(kv: KV<WordPositions>): nat
  {
    86 + |kv.value.word| + 4 * |kv.value.positions|
  }

  // Nothing is recorded inside of a run of letters.
  lemma {:induction false} RunIsQuiet(s: Text, j: int)
    requires 0 <= j <= |s|
    ensures WordTable(s, j) == WordTable(s, RunStart(s, j))
  {
    hide AddedWord;
    if RunStart(s, j) < j {
      RunIsQuiet(s, j - 1);
      assert WordAt(s, j - 1) == None;
    }
  }

  // The words of a text need room in proportion to its length, at the most: each of them
  // takes at least two characters, its letters and what follows it.
  lemma {:induction false} WordTableRoom(s: Text, k: int)
    requires 0 <= k <= |s| && HashesApart(s)
    ensures Total(PostingRoom, T.AllPairs(WordTable(s, k))) <= 46 * k
    decreases k
  {
    hide *;
    if k == 0 {
      NoWordTable(s);
      NoPostingRoom();
    } else {
      WordTableNext(s, k - 1);
      if WordAt(s, k - 1) == None {
        WordTableRoom(s, k - 1);
      } else {
        var i := RunStart(s, k - 1);
        WordLength(s, k - 1);
        WordTableRoom(s, i);
        RunIsQuiet(s, k - 1);
        AddedWordRoom(s, k - 1);
      }
    }
  }

  lemma NoPostingRoom()
    ensures Total(PostingRoom, T.AllPairs(T.EmptyTable<WordPositions>(PARSER_NUM_BUCKETS))) == 0
  {
    EmptyGrown<WordPositions>(PARSER_NUM_BUCKETS);
  }

  lemma WordLength(s: Text, k: int)
    requires 0 <= k < |s| && WordAt(s, k).Some?
    ensures 0 <= RunStart(s, k) < k && |WordAt(s, k).value| == k - RunStart(s, k)
  {
  }

  lemma AddedWordRoom(s: Text, k: int)
    requires 0 <= k < |s| && HashesApart(s) && WordAt(s, k).Some?
    ensures var t, word := WordTable(s, k), WordAt(s, k).value;
            Total(PostingRoom, T.AllPairs(AddedWord(t, word, RunStart(s, k))))
            <= Total(PostingRoom, T.AllPairs(t)) + 90 + |word|
  {
    hide *;
    var t, word, pos := WordTable(s, k), WordAt(s, k).value, RunStart(s, k);
    WordTableIndexed(s, k);
    CheckPasses(s, k);
    AddedWordValue(t, word, pos);
    var key, found := FnvHash(word), T.Find(t, FnvHash(word));
    if found.None? {
      InsertedTotal(PostingRoom, t, KV(key, WordPositions(word, [pos])));
      PostingRoomValue(KV(key, WordPositions(word, [pos])));
    } else {
      var wp := WordPositions(word, found.value.value.positions + [pos]);
      SetTotal(PostingRoom, t, key, wp);
      PostingRoomValue(found.value);
      PostingRoomValue(KV(key, wp));
    }
  }

  lemma PostingRoomValue(kv: KV<WordPositions>)
    ensures PostingRoom(kv) == 86 + |kv.value.word| + 4 * |kv.value.positions|
  {
  }

  // ----- posting a text -----

  lemma {:induction false} PostAllRoom(t: Table<Value>, pairs: seq<KV<WordPositions>>, k: int, d: Key)
    requires IsMemIndex(t) && |t| > 0 && T.Size(t) <= 3 * |t| && 0 <= k <= |pairs| && Postable(t, pairs, d)
    requires Compact(t)
    ensures var t' := PostAll(t, pairs[..k], d);
            && Compact(t')
            && Total(WordRoom, T.AllPairs(t')) <= Total(WordRoom, T.AllPairs(t)) + Total(PostingRoom, pairs[..k])
  {
    hide *;
    PostAllEnds(t, pairs, d);
    TotalEnds(pairs);
    if k > 0 {
      var before, kv := PostAll(t, pairs[..k - 1], d), pairs[k - 1];
      PostAllRoom(t, pairs, k - 1, d);
      PostAllDrained(t, pairs, k - 1, d);
      PostAllNext(t, pairs, k - 1, d);
      NextCanAdd(t, before, pairs, k - 1, d);
      AddedNeeds(before, kv.value.word, d, AsPositions(kv.value.positions));
      TotalNext(pairs, k - 1);
    }
  }

  lemma TotalEnds(pairs: seq<KV<WordPositions>>)
    ensures Total(PostingRoom, pairs[..0]) == 0
  {
  }

  lemma TotalNext(pairs: seq<KV<WordPositions>>, k: int)
    requires 0 <= k < |pairs|
    ensures Total(PostingRoom, pairs[..k + 1])
         == Total(PostingRoom, pairs[..k]) + 86 + |pairs[k].value.word| + 4 * |pairs[k].value.positions|
  {
    PrefixSnoc(pairs, k);
  }

  // ----- all files -----

  // The room for one file: its name, and its text by the length.
  function FileRoom(f: NamedFile): nat
  {
    38 + |f.path| + 46 * |TextOf(f)|
  }

  function FilesRoom(files: seq<NamedFile>): nat
  {
    if files == [] then 0 else FilesRoom(Init(files)) + FileRoom(Last(files))
  }

  // The room that both tables need.
  function CollectionRoom(c: Collection): nat
  {
    RoomFor(c.names, 2) + 132 + Total(WordRoom, T.AllPairs(c.index))
  }

  ghost predicate CompactTables(c: Collection)
  {
    Grown(c.names, 2) && Compact(c.index)
  }

  lemma {:induction false} BuiltRoom(files: seq<NamedFile>, k: int)
    requires AllApart(files) && 0 <= k <= |files| < MAX_DOCID - 1
    ensures CompactTables(Built(files, k)) && CollectionRoom(Built(files, k)) <= 152 + FilesRoom(files[..k])
  {
    hide *;
    NoFilesRoom(files);
    if k == 0 {
      NothingYetValue(files);
      NothingRoom();
    } else {
      var b, f := Built(files, k - 1), files[k - 1];
      BuiltRoom(files, k - 1);
      BuiltCrawled(files, k - 1);
      BuiltNext(files, k - 1);
      FilesRoomNext(files, k - 1);
      AfterFileValue(b, f.path, TextOf(f));
      if HasWords(TextOf(f)) {
        PassesAt(files, k - 1);
        PathIsNew(b.names, b.ids, b.maxId, b.index, TextsOf(files, k - 1), files, k - 1);
        IdsSoFar(files, k - 1);
        CrawledDescribes(b, TextsOf(files, k - 1), files, k - 1);
        AfterFileRoom(b, f.path, TextOf(f), TextsOf(files, k - 1));
      }
    }
  }

  lemma CrawledDescribes(c: Collection, texts: Texts, files: seq<NamedFile>, k: int)
    requires 0 <= k <= |files| && Crawled(c.names, c.ids, c.maxId, c.index, texts, files, k)
    ensures Describes(c.names, c.ids, c.maxId, c.index, texts)
  {
    hide Describes;
  }

  lemma NothingRoom()
    ensures CompactTables(NothingYet()) && CollectionRoom(NothingYet()) == 152
  {
    EmptyGrown<Value>(HASHTABLE_INITIAL_NUM_BUCKETS);
    EmptyGrown<Value>(16);
    T.EmptySize<Value>(16);
  }

  lemma NoFilesRoom(files: seq<NamedFile>)
    ensures FilesRoom(files[..0]) == 0
  {
  }

  lemma FilesRoomNext(files: seq<NamedFile>, k: int)
    requires 0 <= k < |files|
    ensures FilesRoom(files[..k + 1]) == FilesRoom(files[..k]) + 38 + |files[k].path| + 46 * |TextOf(files[k])|
    ensures FilesRoom(files[..k]) <= FilesRoom(files[..k + 1])
  {
    hide TextOf;
    PrefixSnoc(files, k);
  }

  lemma AfterFileRoom(c: Collection, path: Name, s: Text, texts: Texts)
    requires c.Sized() && c.Roomy() && HasWords(s) && Passes(c, path, s) && CompactTables(c)
    requires IdOf(c.ids, path) == INVALID_DOCID && c.maxId < MAX_DOCID
    requires Describes(c.names, c.ids, c.maxId, c.index, texts)
    ensures var r := AfterFile(c, path, s);
            CompactTables(r) && CollectionRoom(r) <= CollectionRoom(c) + 38 + |path| + 46 * |s|
  {
    hide *;
    var r, words := AfterFile(c, path, s), WordTable(s, |s|);
    var pairs := T.AllPairs(words);
    RoomyParts(c);
    AfterFileValue(c, path, s);
    WithNameValue(c, path);
    PassesParts(c, path, s);
    IdForValue(c.ids, c.maxId, path);
    DescribedParts(c.names, c.ids, c.maxId, c.index, texts);
    UnknownHash(c.ids, path, c.names, c.maxId);
    CompactParts(c);
    InsertRoom(c.names, KV(c.maxId, DocName(path)), 2);
    NameRoom(c.maxId, path);
    WordTableIndexed(s, |s|);
    FilePostable(c.index, words, s, c.maxId);
    PostAllEnds(c.index, pairs, c.maxId);
    PostAllRoom(c.index, pairs, |pairs|, c.maxId);
    WordTableRoom(s, |s|);
    CompactParts(r);
  }

  lemma CompactParts(c: Collection)
    ensures CompactTables(c) <==> Grown(c.names, 2) && Compact(c.index)
    ensures CollectionRoom(c) == RoomFor(c.names, 2) + 132 + Total(WordRoom, T.AllPairs(c.index))
  {
    hide Grown, Compact, RoomFor, Total, WordRoom, T.AllPairs;
  }

  lemma NameRoom(d: Key, path: Name)
    ensures ElementRoom(KV(d, DocName(path))) <= 14 + |path|
  {
  }

  // ----- lengths -----

  // Paths and words fit their length fields.
  ghost predicate ShortStrings(files: seq<NamedFile>)
  {
    forall i :: 0 <= i < |files| ==> |files[i].path| <= MAX_INT16 && ShortWords(TextOf(files[i]))
  }

  ghost predicate ShortWords(s: Text)
  {
    forall w :: IsWord(s, w) ==> |w| <= MAX_INT16
  }

  lemma NamesFit(names: Table<Value>, ids: Table<DocIdCell>, maxId: Key, t: Table<Value>, texts: Texts,
                 files: seq<NamedFile>)
    requires Crawled(names, ids, maxId, t, texts, files, |files|) && ShortStrings(files)
    ensures FitsTable(names)
  {
    CrawledNames(names, ids, maxId, t, texts, files);
    hide Crawled, ShortStrings, T.Find, Length16;
    forall b, j | 0 <= b < |names| && 0 <= j < |names[b].kvs|
      ensures Fits(names[b].kvs[j])
    {
      T.MemberFound(names, b, j);
      var kv := names[b].kvs[j];
      Length16Bound(kv.value.name);
    }
  }

  lemma CrawledNames(names: Table<Value>, ids: Table<DocIdCell>, maxId: Key, t: Table<Value>, texts: Texts,
                     files: seq<NamedFile>)
    requires Crawled(names, ids, maxId, t, texts, files, |files|) && ShortStrings(files)
    ensures T.WellFormed(names)
    ensures forall d: Key :: T.Find(names, d).Some? ==>
              T.Find(names, d).value.value.DocName? && |T.Find(names, d).value.value.name| <= MAX_INT16
  {
    hide T.Find, FnvHash, IsMemIndex, HasWords, TextOf, ShortWords;
    NamesAreApart(names, ids, maxId);
    forall d: Key | T.Find(names, d).Some?
      ensures T.Find(names, d).value.value.DocName? && |T.Find(names, d).value.value.name| <= MAX_INT16
    {
      NameOfIdValue(names, ids, maxId, d);
      assert FromFiles(names, texts, d, files, |files|);
      var i :| 0 <= i < |files| && IsDocument(names, texts, d, files[i]);
      assert |files[i].path| <= MAX_INT16;
    }
  }

  lemma WordsFit(names: Table<Value>, ids: Table<DocIdCell>, maxId: Key, t: Table<Value>, texts: Texts,
                 files: seq<NamedFile>)
    requires Crawled(names, ids, maxId, t, texts, files, |files|) && ShortStrings(files)
    ensures EncodableTable(t)
  {
    CrawledDescribes(Collection(names, ids, maxId, t), texts, files, |files|);
    DescribedIsMemIndex(names, ids, maxId, t, texts);
    Pairs(t, 0);
    hide T.Find, IsMemIndex, Crawled, Describes, ShortStrings, Encodable;
    forall b, j | 0 <= b < |t| && 0 <= j < |t[b].kvs|
      ensures Encodable(t[b].kvs[j])
    {
      T.MemberFound(t, b, j);
      WordFits(names, ids, maxId, t, texts, files, t[b].kvs[j].key);
    }
  }

  lemma WordFits(names: Table<Value>, ids: Table<DocIdCell>, maxId: Key, t: Table<Value>, texts: Texts,
                 files: seq<NamedFile>, key: Key)
    requires Crawled(names, ids, maxId, t, texts, files, |files|) && ShortStrings(files)
    requires |t| > 0 && T.Find(t, key).Some?
    ensures Encodable(T.Find(t, key).value)
  {
    hide T.Find, FnvHash, Starts, IsWord, IsMemIndex, Paired, AsPositions, TextOf, HasWords, EncodableTable;
    DescribedIsMemIndex(names, ids, maxId, t, texts);
    Pairs(t, key);
    var r := T.Find(t, key);
    var v := r.value.value.word;
    assert OnlyWords(r);
    var d: Key :| T.Find(r.value.value.table, d).Some?;
    Documents(r.value.value.table);
    assert PositionsAt(t, v, d).Some?;
    assert FromFiles(names, texts, d, files, |files|);
    var i :| 0 <= i < |files| && IsDocument(names, texts, d, files[i]);
    assert ShortWords(TextOf(files[i]));
    DocumentsFit(r.value.value.table);
  }

  lemma DocumentsFit(t: Table<Value>)
    requires IsPostingTable(t)
    ensures EncodableTable(t)
  {
    forall b, j | 0 <= b < |t| && 0 <= j < |t[b].kvs|
      ensures Encodable(t[b].kvs[j])
    {
      assert t[b].kvs[j].value.Positions?;
    }
  }

  // ----- the result -----

  // Files with short paths and words and less than about 46 MB of text make an index
  // that fits: then Search has a result.
  lemma SmallFilesFit(files: seq<NamedFile>)
    requires AllApart(files) && |files| < MAX_DOCID - 1 && ShortStrings(files)
    requires 184 + FilesRoom(files) <= MAX_INT32
    ensures StorableFiles(files)
  {
    hide *;
    var c, texts := Built(files, |files|), TextsOf(files, |files|);
    BuiltCrawled(files, |files|);
    BuiltRoom(files, |files|);
    assert files[..|files|] == files;
    CompactParts(c);
    TableFitsRoom(c.names, 2);
    IndexFitsRoom(c.index);
    NamesFit(c.names, c.ids, c.maxId, c.index, texts, files);
    WordsFit(c.names, c.ids, c.maxId, c.index, texts, files);
    HeaderSizeValue();
    StorableIntro(c.names, c.index);
    IndexFileValue(files);
  }

  lemma StorableIntro(names: Table<Value>, t: Table<Value>)
    requires FitsTable(names) && EncodableTable(t)
    requires HEADER_SIZE + TableSize(names) + TableSize(t) + HEADER_SIZE <= MAX_INT32
    ensures Storable(names, t)
  {
  }

  ghost predicate Small(files: seq<NamedFile>)
  {
    ShortStrings(files) && 184 + FilesRoom(files) <= MAX_INT32
  }

  // A search over the index files of small sets of files always has a result.
  method SearchSmallFiles(sets: seq<seq<NamedFile>>, query: seq<seq<Byte>>, validate: bool)
    returns (rs: seq<QueryResult>)
    requires query != [] && forall k :: 0 <= k < |sets| ==> Searchable(sets[k], query) && Small(sets[k])
    ensures multiset(rs) == AllMatches(sets, query) && RanksDescend(rs)
  {
    hide *;
    forall k | 0 <= k < |sets|
      ensures StorableFiles(sets[k])
    {
      SmallIsStorable(sets[k], query);
    }
    var r := SearchFiles.Search(sets, query, validate);
    rs := r.value;
  }

  lemma SmallIsStorable(files: seq<NamedFile>, query: seq<seq<Byte>>)
    requires Searchable(files, query) && Small(files)
    ensures StorableFiles(files)
  {
    SearchableParts(files, query);
    InRangeValue(files);
    hide Searchable, AllApart, ApartOnDisk, QueryApart, ShortStrings, StorableFiles;
    SmallFilesFit(files);
  }
}
