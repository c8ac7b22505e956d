/**
 A whole crawl (hw2/CrawlFileTree.c): every file, in the order of the directory walk,
 goes through HandleFile, starting from an empty index.  The walk itself is a
 parameter: the sequence of paths and contents.
 */
module CrawlFiles {
  import opened Common
  import opened DiskLayout
  import opened DocTable
  import opened CrawlFileTree
  import opened FileParser
  import opened Fnv
  import opened LayoutStructs
  import opened MemIndex
  import QueryAgreement
  import T = Tables

  datatype NamedFile = NamedFile(path: Name, contents: seq<Byte>)

  // What the parser sees of a file: its bytes up to the first zero.
  function TextOf(f: NamedFile): (s: Text)
    ensures |s| <= |f.contents|
  {
    BufferText(f.contents);
    CString(f.contents + [0])
  }

  lemma {:induction false} BufferText(contents: seq<Byte>)
    ensures |CString(contents + [0])| <= |contents|
  {
    if contents != [] {
      assert (contents + [0])[1..] == contents[1..] + [0];
      BufferText(contents[1..]);
    }
  }

  // ReadFileToString: a buffer with a terminator behind the contents.
  method ReadFileToString(f: NamedFile) returns (buf: array<Byte>)
    ensures fresh(buf) && buf[..] == f.contents + [0]
  {
    var all := f.contents + [0];
    buf := new Byte[|all|](i requires 0 <= i < |all| => all[i]);
    assert buf[..] == all;
  }

  // Different paths, and different words anywhere in the files, have different hashes.
  ghost predicate AllApart(files: seq<NamedFile>)
  {
    && (forall i, j :: 0 <= i < j < |files| ==> FnvHash(files[i].path) != FnvHash(files[j].path))
    && (forall i, j, v, w :: 0 <= i < |files| && 0 <= j < |files| ==> WordsApart(files[i], files[j], v, w))
  }

  ghost predicate WordsApart(f: NamedFile, g: NamedFile, v: Text, w: Text)
  {
    IsWord(TextOf(g), w) ==> NoClash(f, v, w)
  }

  // If v is a word of the file, it has not got the hash of w by chance.
  ghost predicate NoClash(f: NamedFile, v: Text, w: Text)
  {
    IsWord(TextOf(f), v) && FnvHash(v) == FnvHash(w) ==> v == w
  }

  // Document d is the given file.
  ghost predicate IsDocument(names: Table<Value>, texts: Texts, d: Key, f: NamedFile)
    requires |names| > 0
  {
    d in texts && texts[d] == TextOf(f) && HasWords(TextOf(f)) && NameOfId(names, d) == Some(f.path)
  }

  // Document d is one of the first k files.
  ghost predicate FromFiles(names: Table<Value>, texts: Texts, d: Key, files: seq<NamedFile>, k: int)
    requires |names| > 0 && 0 <= k <= |files|
  {
    exists i :: 0 <= i < k && IsDocument(names, texts, d, files[i])
  }

  // Some document is the given file.
  ghost predicate Recorded(names: Table<Value>, texts: Texts, f: NamedFile)
    requires |names| > 0
  {
    exists d: Key :: IsDocument(names, texts, d, f)
  }

  // The index describes exactly those of the first k files that have words.
  ghost predicate Crawled(names: Table<Value>, ids: Table<DocIdCell>, maxId: Key, t: Table<Value>, texts: Texts,
                          files: seq<NamedFile>, k: int)
    requires 0 <= k <= |files|
  {
    && Describes(names, ids, maxId, t, texts) && |names| > 0 && |ids| > 0 && |t| > 0 && maxId <= k + 1
    && (forall d: Key {:trigger FromFiles(names, texts, d, files, k)} :: 1 <= d < maxId ==>
       FromFiles(names, texts, d, files, k))
    && (forall i :: 0 <= i < k && HasWords(TextOf(files[i])) ==> Recorded(names, texts, files[i]))
  }

  // No file so far has a path with the hash of the next.
  lemma PathIsNew(names: Table<Value>, ids: Table<DocIdCell>, maxId: Key, t: Table<Value>, texts: Texts,
                  files: seq<NamedFile>, k: int)
    requires 0 <= k < |files| && AllApart(files) && Crawled(names, ids, maxId, t, texts, files, k)
    ensures |ids| > 0 && IdOf(ids, files[k].path) == INVALID_DOCID
  {
    hide T.Find, FnvHash, Starts, IsWord, NoClash, AllApart;
    IdThenName(names, ids, maxId, files[k].path);
    var d := IdOf(ids, files[k].path);
    NameThenId(names, ids, maxId, d);
    if d != INVALID_DOCID {
      assert FromFiles(names, texts, d, files, k);
      var i :| 0 <= i < k && IsDocument(names, texts, d, files[i]);
      PathsApart(files, i, k);
    }
  }

  lemma PathsApart(files: seq<NamedFile>, i: int, j: int)
    requires AllApart(files) && 0 <= i < j < |files|
    ensures FnvHash(files[i].path) != FnvHash(files[j].path)
  {
  }

  // If no word of the files has the hash of w by chance, then none in the index has.
  lemma WordsAreApart(names: Table<Value>, ids: Table<DocIdCell>, maxId: Key, t: Table<Value>, texts: Texts,
                      files: seq<NamedFile>, k: int, w: Text)
    requires 0 <= k <= |files| && Crawled(names, ids, maxId, t, texts, files, k)
    requires forall i, v :: 0 <= i < k && HasWords(TextOf(files[i])) ==> NoClash(files[i], v, w)
    ensures |t| > 0 && QueryAgreement.NoCollision(t, w)
  {
    hide T.Find, FnvHash, Starts, IsWord, IsMemIndex, Paired, AsPositions, TextOf;
    var r := T.Find(t, FnvHash(w));
    if r.Some? && r.value.value.Postings? {
      var v := r.value.value.word;
      DescribedIsMemIndex(names, ids, maxId, t, texts);
      Pairs(t, FnvHash(w));
      assert OnlyWords(r);
      var d: Key :| T.Find(r.value.value.table, d).Some?;
      Documents(r.value.value.table);
      assert PositionsAt(t, v, d).Some?;
      assert FromFiles(names, texts, d, files, k);
      var i :| 0 <= i < k && IsDocument(names, texts, d, files[i]);
      assert NoClash(files[i], v, w);
    }
  }

  lemma NextPostable(names: Table<Value>, ids: Table<DocIdCell>, maxId: Key, t: Table<Value>, texts: Texts,
                     files: seq<NamedFile>, k: int)
    requires 0 <= k < |files| && AllApart(files) && Crawled(names, ids, maxId, t, texts, files, k)
    ensures |t| > 0 && |ids| > 0 && IsMemIndex(t) && HashesApart(TextOf(files[k]))
    ensures IdFor(ids, maxId, files[k].path) == maxId && CanPost(t, TextOf(files[k]), maxId)
    ensures IdOf(ids, files[k].path) == INVALID_DOCID && maxId <= k + 1 && Describes(names, ids, maxId, t, texts)
  {
    hide IsMemIndex, Describes, IsWord, FnvHash, TextOf, QueryAgreement.NoCollision, CanPost, IdOf;
    PathIsNew(names, ids, maxId, t, texts, files, k);
    DescribedIsMemIndex(names, ids, maxId, t, texts);
    var s := TextOf(files[k]);
    forall v, w | IsWord(s, v) && IsWord(s, w) && FnvHash(v) == FnvHash(w)
      ensures v == w
    {
      assert WordsApart(files[k], files[k], v, w);
    }
    forall w | IsWord(s, w)
      ensures QueryAgreement.NoCollision(t, w)
    {
      forall i, v | 0 <= i < k
        ensures NoClash(files[i], v, w)
      {
        assert WordsApart(files[i], files[k], v, w);
      }
      WordsAreApart(names, ids, maxId, t, texts, files, k, w);
    }
    NewDocumentPostable(names, ids, maxId, t, texts, s);
  }

  lemma CrawledNothing(names: Table<Value>, ids: Table<DocIdCell>, t: Table<Value>, files: seq<NamedFile>)
    requires Describes(names, ids, 1, t, map[]) && |names| > 0 && |ids| > 0 && |t| > 0
    ensures Crawled(names, ids, 1, t, map[], files, 0)
  {
    hide Describes;
  }

  lemma CrawledSkips(names: Table<Value>, ids: Table<DocIdCell>, maxId: Key, t: Table<Value>, texts: Texts,
                     files: seq<NamedFile>, k: int)
    requires 0 <= k < |files| && Crawled(names, ids, maxId, t, texts, files, k) && !HasWords(TextOf(files[k]))
    ensures Crawled(names, ids, maxId, t, texts, files, k + 1)
  {
    hide Describes, IsDocument, HasWords, TextOf;
    forall d: Key {:trigger FromFiles(names, texts, d, files, k + 1)} | 1 <= d < maxId
      ensures FromFiles(names, texts, d, files, k + 1)
    {
      assert FromFiles(names, texts, d, files, k);
    }
  }

  lemma CrawledMore(names: Table<Value>, ids: Table<DocIdCell>, maxId: Key, t: Table<Value>, texts: Texts,
                    files: seq<NamedFile>, k: int, names': Table<Value>, ids': Table<DocIdCell>, t': Table<Value>)
    requires 0 <= k < |files| && Crawled(names, ids, maxId, t, texts, files, k) && maxId < MAX_DOCID
    requires |names'| > 0 && |ids'| > 0 && |t'| > 0 && NameOfId(names', maxId) == Some(files[k].path)
    requires forall e: Key :: e != maxId ==> NameOfId(names', e) == NameOfId(names, e)
    requires HasWords(TextOf(files[k])) && Describes(names', ids', maxId + 1, t', texts[maxId := TextOf(files[k])])
    ensures Crawled(names', ids', maxId + 1, t', texts[maxId := TextOf(files[k])], files, k + 1)
  {
    hide HasWords, TextOf, NameOfId;
    DescribedDocuments(names, ids, maxId, t, texts);
    hide Describes, IsDocument, FromFiles, Recorded;
    var texts' := texts[maxId := TextOf(files[k])];
    NewFromFiles(names', texts', maxId, files, k);
    forall d: Key {:trigger FromFiles(names', texts', d, files, k + 1)} | 1 <= d < maxId + 1
      ensures FromFiles(names', texts', d, files, k + 1)
    {
      if d < maxId {
        OldFromFiles(names, texts, names', texts', maxId, d, files, k);
      }
    }
    forall i | 0 <= i < k + 1 && HasWords(TextOf(files[i]))
      ensures Recorded(names', texts', files[i])
    {
      if i < k {
        OldRecorded(names, texts, names', texts', maxId, files[i]);
      }
    }
  }

  lemma NewFromFiles(names: Table<Value>, texts: Texts, d: Key, files: seq<NamedFile>, k: int)
    requires |names| > 0 && 0 <= k < |files| && IsDocument(names, texts, d, files[k])
    ensures FromFiles(names, texts, d, files, k + 1) && Recorded(names, texts, files[k])
  {
    hide IsDocument;
  }

  lemma OldFromFiles(names: Table<Value>, texts: Texts, names': Table<Value>, texts': Texts, maxId: Key, d: Key,
                     files: seq<NamedFile>, k: int)
    requires |names| > 0 && |names'| > 0 && 0 <= k < |files| && d != maxId && FromFiles(names, texts, d, files, k)
    requires NameOfId(names', d) == NameOfId(names, d) && texts' == texts[maxId := TextOf(files[k])]
    ensures FromFiles(names', texts', d, files, k + 1)
  {
    hide HasWords, TextOf, NameOfId;
    var i :| 0 <= i < k && IsDocument(names, texts, d, files[i]);
    assert IsDocument(names', texts', d, files[i]);
  }

  lemma OldRecorded(names: Table<Value>, texts: Texts, names': Table<Value>, texts': Texts, maxId: Key, f: NamedFile)
    requires |names| > 0 && |names'| > 0 && maxId !in texts && Recorded(names, texts, f)
    requires forall e: Key :: e != maxId ==> NameOfId(names', e) == NameOfId(names, e)
    requires maxId in texts' && texts' == texts[maxId := texts'[maxId]]
    ensures Recorded(names', texts', f)
  {
    hide HasWords, TextOf, NameOfId;
    var d: Key :| IsDocument(names, texts, d, f);
    assert IsDocument(names', texts', d, f);
  }

  lemma DescribedDocuments(names: Table<Value>, ids: Table<DocIdCell>, maxId: Key, t: Table<Value>, texts: Texts)
    requires Describes(names, ids, maxId, t, texts)
    ensures forall d :: d in texts ==> 1 <= d < maxId
  {
  }

  // ----- the crawl -----

  // DocTable_Allocate and MemIndex_Allocate.
  function NothingYet(): (c: Collection)
    ensures c.Sized()
  {
    Collection(T.EmptyTable(HASHTABLE_INITIAL_NUM_BUCKETS), T.EmptyTable(HASHTABLE_INITIAL_NUM_BUCKETS), 1,
               T.EmptyTable(16))
  }

  // What the first k files make of it.
  ghost function Built(files: seq<NamedFile>, k: int): (c: Collection)
    requires 0 <= k <= |files|
    ensures c.Sized()
  {
    if k == 0 then NothingYet() else AfterFile(Built(files, k - 1), files[k - 1].path, TextOf(files[k - 1]))
  }

  // And their texts, by document id.
  ghost function TextsOf(files: seq<NamedFile>, k: int): Texts
    requires 0 <= k <= |files|
  {
    if k == 0 then map[]
    else if HasWords(TextOf(files[k - 1])) then
      TextsOf(files, k - 1)[Built(files, k - 1).maxId := TextOf(files[k - 1])]
    else TextsOf(files, k - 1)
  }

  lemma BuiltNext(files: seq<NamedFile>, k: int)
    requires 0 <= k < |files|
    ensures Built(files, k + 1) == AfterFile(Built(files, k), files[k].path, TextOf(files[k]))
    ensures Built(files, 0) == NothingYet() && TextsOf(files, 0) == map[]
    ensures TextsOf(files, k + 1)
         == if HasWords(TextOf(files[k])) then TextsOf(files, k)[Built(files, k).maxId := TextOf(files[k])]
            else TextsOf(files, k)
  {
    hide AfterFile, TextOf, NothingYet, HasWords;
  }

  lemma {:induction false} IdsSoFar(files: seq<NamedFile>, k: int)
    requires 0 <= k <= |files| < MAX_DOCID - 1
    ensures Built(files, k).maxId <= k + 1
  {
    hide T.InsertInto, T.Resized, FnvHash, IdOf, PostAll, T.AllPairs, WordTable, HasWords, TextOf;
    if k > 0 {
      IdsSoFar(files, k - 1);
    }
  }

  // The checks that end the program if they fail pass for all files, one after the other.
  ghost predicate Checked(files: seq<NamedFile>)
  {
    forall k :: 0 <= k < |files| ==> PassesNext(files, k)
  }

  ghost predicate PassesNext(files: seq<NamedFile>, k: int)
    requires 0 <= k < |files|
  {
    Passes(Built(files, k), files[k].path, TextOf(files[k]))
  }

  // From nothing to the index of all files, as a function of the files.
  method Crawl(files: seq<NamedFile>) returns (docTable: DocTable, index: MemIndex)
    requires Checked(files) && |files| < MAX_DOCID - 1
    requires forall i :: 0 <= i < |files| ==> |files[i].contents| <= MAX_INT32
    ensures docTable.Valid() && index.Valid()
    ensures Collected(docTable, index) == Built(files, |files|)
  {
    hide *;
    docTable := new DocTable();
    index := new MemIndex();
    CollectedParts(docTable, index);
    NothingYetValue(files);
    for k := 0 to |files|
      invariant docTable.Valid() && index.Valid() && fresh(docTable) && fresh(index.Repr)
      invariant fresh(docTable.idToName.Repr) && fresh(docTable.nameToId.Repr)
      invariant docTable.idToName.Repr !! index.Repr && docTable.nameToId.Repr !! index.Repr && docTable !in index.Repr
      invariant Collected(docTable, index) == Built(files, k) && IsMemIndex(index.table)
    {
      CollectedParts(docTable, index);
      IdsSoFar(files, k);
      CheckedAt(files, k);
      BuiltNext(files, k);
      TextOfValue(files[k]);
      var buf := ReadFileToString(files[k]);
      HandleFile(files[k].path, buf, docTable, index);
    }
  }

  lemma NothingYetValue(files: seq<NamedFile>)
    ensures Built(files, 0) == NothingYet()
    ensures NothingYet() == Collection(T.EmptyTable(HASHTABLE_INITIAL_NUM_BUCKETS),
                                       T.EmptyTable(HASHTABLE_INITIAL_NUM_BUCKETS), 1, T.EmptyTable(16))
  {
  }

  lemma CheckedAt(files: seq<NamedFile>, k: int)
    requires Checked(files) && 0 <= k < |files|
    ensures Passes(Built(files, k), files[k].path, TextOf(files[k]))
  {
    hide Passes, Built, TextOf;
    assert PassesNext(files, k);
  }

  // When no hashes collide, every check passes, and the tables describe exactly the
  // files that have words.
  lemma {:induction false} BuiltCrawled(files: seq<NamedFile>, k: int)
    requires AllApart(files) && 0 <= k <= |files| < MAX_DOCID - 1
    ensures var c := Built(files, k);
            && Crawled(c.names, c.ids, c.maxId, c.index, TextsOf(files, k), files, k) && c.Roomy()
            && (k < |files| ==> PassesNext(files, k))
  {
    hide *;
    var c, texts := Built(files, k), TextsOf(files, k);
    if k == 0 {
      StartCrawled(files);
    } else {
      var b, before, f := Built(files, k - 1), TextsOf(files, k - 1), files[k - 1];
      BuiltCrawled(files, k - 1);
      BuiltNext(files, k - 1);
      AfterFileValue(b, f.path, TextOf(f));
      if HasWords(TextOf(f)) {
        NextPostable(b.names, b.ids, b.maxId, b.index, before, files, k - 1);
        PassesAt(files, k - 1);
        AfterFileDescribes(b, f.path, TextOf(f), before);
        RoomyParts(c);
        CrawledMore(b.names, b.ids, b.maxId, b.index, before, files, k - 1, c.names, c.ids, c.index);
      } else {
        CrawledSkips(b.names, b.ids, b.maxId, b.index, before, files, k - 1);
      }
    }
    if k < |files| {
      RoomyParts(c);
      NextPostable(c.names, c.ids, c.maxId, c.index, texts, files, k);
      PassesParts(c, files[k].path, TextOf(files[k]));
      PassesAt(files, k);
    }
  }

  lemma PassesAt(files: seq<NamedFile>, k: int)
    requires 0 <= k < |files|
    ensures PassesNext(files, k) <==> Passes(Built(files, k), files[k].path, TextOf(files[k]))
  {
  }

  lemma ChecksPass(files: seq<NamedFile>)
    requires AllApart(files) && |files| < MAX_DOCID - 1
    ensures Checked(files)
  {
    hide PassesNext, AllApart;
    forall k | 0 <= k < |files|
      ensures PassesNext(files, k)
    {
      BuiltCrawled(files, k);
    }
  }

  lemma StartCrawled(files: seq<NamedFile>)
    ensures var c := Built(files, 0);
            Crawled(c.names, c.ids, c.maxId, c.index, TextsOf(files, 0), files, 0) && c.Roomy()
  {
    hide *;
    NothingYetValue(files);
    NoTextsYet(files);
    NothingPaired();
    NoWordsYet();
    StartDescribed(T.EmptyTable(HASHTABLE_INITIAL_NUM_BUCKETS), T.EmptyTable(HASHTABLE_INITIAL_NUM_BUCKETS),
                   T.EmptyTable(16), files);
    RoomyParts(Built(files, 0));
    EmptyRoom<Value>(HASHTABLE_INITIAL_NUM_BUCKETS);
    EmptyRoom<DocIdCell>(HASHTABLE_INITIAL_NUM_BUCKETS);
    EmptyRoom<Value>(16);
  }

  lemma NoTextsYet(files: seq<NamedFile>)
    ensures TextsOf(files, 0) == map[]
    ensures HASHTABLE_INITIAL_NUM_BUCKETS == 2
  {
  }

  lemma EmptyRoom<V>(n: nat)
    ensures T.Size(T.EmptyTable<V>(n)) == 0
  {
    T.EmptySize<V>(n);
  }

  lemma StartDescribed(names: Table<Value>, ids: Table<DocIdCell>, t: Table<Value>, files: seq<NamedFile>)
    requires Paired(names, ids, 1) && IsMemIndex(t) && |t| > 0 && forall key :: T.Find(t, key) == None
    ensures Crawled(names, ids, 1, t, map[], files, 0)
  {
    hide *;
    PairedParts(names, ids, 1);
    NothingDescribed(names, ids, 1, t);
    CrawledNothing(names, ids, t, files);
  }

  lemma TextOfValue(f: NamedFile)
    ensures TextOf(f) == CString(f.contents + [0])
  {
  }
}
