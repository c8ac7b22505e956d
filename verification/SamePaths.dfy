/**
 When a search over index files finds the matching files: exactly when no two files with
 words have paths that become the same on disk.
 */
module SamePaths {
  import opened Common
  import opened CrawlFiles
  import opened CrawlFileTree
  import opened DiskLayout
  import opened DocTable
  import opened EndToEnd
  import opened FileParser
  import opened Fnv
  import opened MemIndex
  import opened QueryAgreement
  import opened QueryProcessor
  import opened RoundTrip
  import opened SameNames
  import opened SearchFiles
  import opened Sorting
  import opened WriteIndex
  import T = Tables

  // ----- results and files -----

  // The result is for the file: its document, and how often it has the query words.
  ghost predicate ResultFor(names: Table<Value>, texts: Texts, query: seq<seq<Byte>>, f: NamedFile, sr: SearchResult)
    requires |names| > 0
  {
    FileMatches(f, query) && IsDocument(names, texts, sr.docId, f) && sr.rank == CountAll(TextOf(f), query)
  }

  // There is a result for every matching file, and only for those.
  ghost predicate ResultsFor(names: Table<Value>, texts: Texts, query: seq<seq<Byte>>, files: seq<NamedFile>,
                             rs: seq<SearchResult>)
    requires |names| > 0
  {
    && (forall k :: 0 <= k < |rs| ==> SomeFile(names, texts, query, files, rs[k]))
    && (forall i :: 0 <= i < |files| && FileMatches(files[i], query) ==> SomeResult(names, texts, query, files[i], rs))
  }

  ghost predicate SomeFile(names: Table<Value>, texts: Texts, query: seq<seq<Byte>>, files: seq<NamedFile>,
                           sr: SearchResult)
    requires |names| > 0
  {
    exists i :: 0 <= i < |files| && ResultFor(names, texts, query, files[i], sr)
  }

  ghost predicate SomeResult(names: Table<Value>, texts: Texts, query: seq<seq<Byte>>, f: NamedFile,
                             rs: seq<SearchResult>)
    requires |names| > 0
  {
    exists k :: 0 <= k < |rs| && ResultFor(names, texts, query, f, rs[k])
  }

  ghost predicate PathsDiffer(files: seq<NamedFile>)
  {
    forall i, j :: 0 <= i < j < |files| ==> files[i].path != files[j].path
  }

  // A file has one document.
  ghost predicate OneDocument(names: Table<Value>)
    requires |names| > 0
  {
    forall d, e :: NameOfId(names, d).Some? && NameOfId(names, d) == NameOfId(names, e) ==> d == e
  }

  function WithoutResult(rs: seq<SearchResult>, k: nat): (r: seq<SearchResult>)
    requires k < |rs|
    ensures |r| == |rs| - 1 && forall i :: 0 <= i < |r| ==> r[i] == rs[if i < k then i else i + 1]
  {
    rs[..k] + rs[k + 1..]
  }

  lemma MultisetWithout<X>(s: seq<X>, rest: seq<X>, k: nat)
    requires k < |s| && |rest| == |s| - 1 && forall i :: 0 <= i < |rest| ==> rest[i] == s[if i < k then i else i + 1]
    ensures multiset(s) == multiset(rest) + multiset{s[k]}
  {
    assert rest == s[..k] + s[k + 1..];
    assert s == s[..k] + [s[k]] + s[k + 1..];
  }

  lemma ByNameWithout(dt: Table<Value>, rs: seq<SearchResult>, k: nat)
    requires |dt| > 0 && k < |rs|
    ensures multiset(ByName(dt, rs))
         == multiset(ByName(dt, WithoutResult(rs, k))) + multiset{QueryResult(NameOf(dt, rs[k].docId), rs[k].rank)}
  {
    hide *;
    MultisetWithout(ByName(dt, rs), ByName(dt, WithoutResult(rs, k)), k);
  }

  lemma OnlyOneDocument(names: Table<Value>, texts: Texts, query: seq<seq<Byte>>, f: NamedFile, a: SearchResult,
                        b: SearchResult)
    requires |names| > 0 && OneDocument(names)
    requires ResultFor(names, texts, query, f, a) && ResultFor(names, texts, query, f, b)
    ensures a.docId == b.docId
  {
    hide FileMatches, TextOf, CountAll, NameOfId, HasWords;
  }

  lemma OnlyOneFile(names: Table<Value>, texts: Texts, query: seq<seq<Byte>>, f: NamedFile, g: NamedFile,
                    sr: SearchResult)
    requires |names| > 0 && ResultFor(names, texts, query, f, sr) && ResultFor(names, texts, query, g, sr)
    ensures f.path == g.path
  {
    hide FileMatches, TextOf, CountAll, NameOfId, HasWords;
  }

  lemma ResultMatches(names: Table<Value>, texts: Texts, query: seq<seq<Byte>>, f: NamedFile, sr: SearchResult)
    requires |names| > 0 && ResultFor(names, texts, query, f, sr)
    ensures FileMatches(f, query)
  {
    hide FileMatches, TextOf, CountAll, IsDocument;
  }

  // A result that is not the one of the last file is for an earlier file.
  lemma EarlierFile(names: Table<Value>, texts: Texts, query: seq<seq<Byte>>, files: seq<NamedFile>,
                    sr: SearchResult, last: SearchResult)
    requires |names| > 0 && files != [] && OneDocument(names) && SomeFile(names, texts, query, files, sr)
    requires ResultFor(names, texts, query, Last(files), last) && sr.docId != last.docId
    ensures SomeFile(names, texts, query, Init(files), sr)
  {
    hide ResultFor, OneDocument;
    var i :| 0 <= i < |files| && ResultFor(names, texts, query, files[i], sr);
    if i == |files| - 1 {
      OnlyOneDocument(names, texts, query, Last(files), sr, last);
    } else {
      assert Init(files)[i] == files[i];
    }
  }

  // A result of an earlier file is still there.
  lemma OtherResult(names: Table<Value>, texts: Texts, query: seq<seq<Byte>>, f: NamedFile, last: NamedFile,
                    rs: seq<SearchResult>, k: nat)
    requires |names| > 0 && k < |rs| && f.path != last.path
    requires ResultFor(names, texts, query, last, rs[k]) && SomeResult(names, texts, query, f, rs)
    ensures SomeResult(names, texts, query, f, WithoutResult(rs, k))
  {
    hide ResultFor, WithoutResult;
    var l :| 0 <= l < |rs| && ResultFor(names, texts, query, f, rs[l]);
    if l == k {
      OnlyOneFile(names, texts, query, f, last, rs[k]);
    } else {
      assert WithoutResult(rs, k)[if l < k then l else l - 1] == rs[l];
    }
  }

  lemma EarlierPaths(files: seq<NamedFile>)
    requires files != [] && PathsDiffer(files)
    ensures |Init(files)| == |files| - 1 && PathsDiffer(Init(files))
    ensures forall i :: 0 <= i < |Init(files)| ==> Init(files)[i] == files[i] && files[i].path != Last(files).path
  {
  }

  lemma OtherDocs(rs: seq<SearchResult>, k: nat)
    requires DistinctDocs(rs) && k < |rs|
    ensures DistinctDocs(WithoutResult(rs, k))
    ensures forall m :: 0 <= m < |rs| - 1 ==> WithoutResult(rs, k)[m].docId != rs[k].docId
  {
    hide WithoutResult;
    var rest := WithoutResult(rs, k);
    forall i, j | 0 <= i < j < |rest|
      ensures rest[i].docId != rest[j].docId
    {
      assert rest[i] == rs[if i < k then i else i + 1] && rest[j] == rs[if j < k then j else j + 1];
    }
  }

  lemma FewerResults(names: Table<Value>, texts: Texts, query: seq<seq<Byte>>, files: seq<NamedFile>,
                     rs: seq<SearchResult>, k: nat)
    requires |names| > 0 && files != [] && PathsDiffer(files) && OneDocument(names) && DistinctDocs(rs)
    requires ResultsFor(names, texts, query, files, rs)
    requires k < |rs| && ResultFor(names, texts, query, Last(files), rs[k])
    ensures DistinctDocs(WithoutResult(rs, k)) && PathsDiffer(Init(files))
    ensures ResultsFor(names, texts, query, Init(files), WithoutResult(rs, k))
  {
    hide *;
    var before, rest := Init(files), WithoutResult(rs, k);
    EarlierPaths(files);
    OtherDocs(rs, k);
    forall m | 0 <= m < |rest|
      ensures SomeFile(names, texts, query, before, rest[m])
    {
      var was := if m < k then m else m + 1;
      FileAt(names, texts, query, files, rs, was);
      EarlierFile(names, texts, query, files, rest[m], rs[k]);
    }
    forall i | 0 <= i < |before| && FileMatches(before[i], query)
      ensures SomeResult(names, texts, query, before[i], rest)
    {
      ResultAt(names, texts, query, files, rs, i);
      OtherResult(names, texts, query, files[i], Last(files), rs, k);
    }
    ResultsIntro(names, texts, query, before, rest);
  }

  lemma FileAt(names: Table<Value>, texts: Texts, query: seq<seq<Byte>>, files: seq<NamedFile>,
               rs: seq<SearchResult>, k: nat)
    requires |names| > 0 && ResultsFor(names, texts, query, files, rs) && k < |rs|
    ensures SomeFile(names, texts, query, files, rs[k])
  {
    hide SomeFile, SomeResult, FileMatches;
  }

  lemma ResultAt(names: Table<Value>, texts: Texts, query: seq<seq<Byte>>, files: seq<NamedFile>,
                 rs: seq<SearchResult>, i: nat)
    requires |names| > 0 && ResultsFor(names, texts, query, files, rs) && i < |files| && FileMatches(files[i], query)
    ensures SomeResult(names, texts, query, files[i], rs)
  {
    hide SomeFile, SomeResult, FileMatches;
  }

  lemma ResultsIntro(names: Table<Value>, texts: Texts, query: seq<seq<Byte>>, files: seq<NamedFile>,
                     rs: seq<SearchResult>)
    requires |names| > 0 && forall k :: 0 <= k < |rs| ==> SomeFile(names, texts, query, files, rs[k])
    requires forall i :: 0 <= i < |files| && FileMatches(files[i], query) ==>
               SomeResult(names, texts, query, files[i], rs)
    ensures ResultsFor(names, texts, query, files, rs)
  {
    hide SomeFile, SomeResult, FileMatches;
  }

  // A result that is not for the last file is for an earlier one.
  lemma NotTheLast(names: Table<Value>, texts: Texts, query: seq<seq<Byte>>, files: seq<NamedFile>, sr: SearchResult)
    requires |names| > 0 && files != [] && !FileMatches(Last(files), query) && SomeFile(names, texts, query, files, sr)
    ensures SomeFile(names, texts, query, Init(files), sr)
  {
    hide FileMatches, ResultFor;
    var i :| 0 <= i < |files| && ResultFor(names, texts, query, files[i], sr);
    ResultMatches(names, texts, query, files[i], sr);
    assert i < |files| - 1;
    assert Init(files)[i] == files[i];
  }

  lemma SameResults(names: Table<Value>, texts: Texts, query: seq<seq<Byte>>, files: seq<NamedFile>,
                    rs: seq<SearchResult>)
    requires |names| > 0 && files != [] && PathsDiffer(files) && !FileMatches(Last(files), query)
    requires ResultsFor(names, texts, query, files, rs)
    ensures PathsDiffer(Init(files)) && ResultsFor(names, texts, query, Init(files), rs)
  {
    hide *;
    EarlierPaths(files);
    forall k | 0 <= k < |rs|
      ensures SomeFile(names, texts, query, Init(files), rs[k])
    {
      FileAt(names, texts, query, files, rs, k);
      NotTheLast(names, texts, query, files, rs[k]);
    }
    forall i | 0 <= i < |Init(files)| && FileMatches(Init(files)[i], query)
      ensures SomeResult(names, texts, query, Init(files)[i], rs)
    {
      ResultAt(names, texts, query, files, rs, i);
    }
    ResultsIntro(names, texts, query, Init(files), rs);
  }

  lemma {:induction false} ResultsAreFiles(names: Table<Value>, texts: Texts, query: seq<seq<Byte>>,
                                           files: seq<NamedFile>, rs: seq<SearchResult>)
    requires IsDocTable(names) && |names| > 0 && |TableOnDisk(names)| > 0
    requires PathsDiffer(files) && OneDocument(names) && DistinctDocs(rs) && ResultsFor(names, texts, query, files, rs)
    ensures multiset(ByName(TableOnDisk(names), rs)) == MatchingFiles(files, query)
    decreases |files|
  {
    hide *;
    var disk := TableOnDisk(names);
    InitShorter(files);
    if files == [] {
      NoResultsFor(names, texts, query, rs);
      NoMatches(disk, query);
    } else if FileMatches(Last(files), query) {
      var k := ResultOfLast(names, texts, query, files, rs);
      FewerResults(names, texts, query, files, rs, k);
      ByNameWithout(disk, rs, k);
      NameOfResult(names, texts, query, Last(files), rs[k]);
      ResultsAreFiles(names, texts, query, Init(files), WithoutResult(rs, k));
      MatchingNext(files, query);
    } else {
      SameResults(names, texts, query, files, rs);
      ResultsAreFiles(names, texts, query, Init(files), rs);
      MatchingNext(files, query);
    }
  }

  lemma InitShorter(files: seq<NamedFile>)
    ensures files != [] ==> |Init(files)| < |files|
  {
  }

  lemma NoResultsFor(names: Table<Value>, texts: Texts, query: seq<seq<Byte>>, rs: seq<SearchResult>)
    requires |names| > 0 && ResultsFor(names, texts, query, [], rs)
    ensures rs == []
  {
    hide SomeFile;
    if rs != [] {
      NoFile(names, texts, query, rs[0]);
    }
  }

  lemma NoFile(names: Table<Value>, texts: Texts, query: seq<seq<Byte>>, sr: SearchResult)
    requires |names| > 0
    ensures !SomeFile(names, texts, query, [], sr)
  {
  }

  lemma NoMatches(dt: Table<Value>, query: seq<seq<Byte>>)
    requires |dt| > 0
    ensures multiset(ByName(dt, [])) == MatchingFiles([], query)
  {
  }

  lemma ResultOfLast(names: Table<Value>, texts: Texts, query: seq<seq<Byte>>, files: seq<NamedFile>,
                     rs: seq<SearchResult>) returns (k: nat)
    requires |names| > 0 && files != [] && ResultsFor(names, texts, query, files, rs) && FileMatches(Last(files), query)
    ensures k < |rs| && ResultFor(names, texts, query, Last(files), rs[k])
  {
    hide FileMatches, ResultFor;
    assert SomeResult(names, texts, query, files[|files| - 1], rs);
    k :| 0 <= k < |rs| && ResultFor(names, texts, query, Last(files), rs[k]);
  }

  lemma MatchingNext(files: seq<NamedFile>, query: seq<seq<Byte>>)
    requires files != []
    ensures MatchingFiles(files, query) == MatchingFiles(Init(files), query) +
            if FileMatches(Last(files), query)
            then multiset{QueryResult(NameOnDisk(Last(files).path), CountAll(TextOf(Last(files)), query))}
            else multiset{}
  {
    hide FileMatches, NameOnDisk, CountAll, TextOf;
  }

  lemma NameOfResult(names: Table<Value>, texts: Texts, query: seq<seq<Byte>>, f: NamedFile, sr: SearchResult)
    requires IsDocTable(names) && |names| > 0 && ResultFor(names, texts, query, f, sr)
    ensures |TableOnDisk(names)| > 0 && NameOf(TableOnDisk(names), sr.docId) == NameOnDisk(f.path)
    ensures sr.rank == CountAll(TextOf(f), query)
  {
    NameOfOnDisk(names, sr.docId);
    SameName(names, sr.docId);
    hide FileMatches, TextOf, CountAll, NameOfId, NameOf, HasWords, TableOnDisk, NameOnDisk, IsDocTable;
  }

  // ----- what memory finds -----

  // The index of the files.
  ghost predicate IsIndexOf(c: Collection, texts: Texts, files: seq<NamedFile>)
  {
    Crawled(c.names, c.ids, c.maxId, c.index, texts, files, |files|)
  }

  lemma MemoryResults(c: Collection, texts: Texts, query: seq<seq<Byte>>, rs: Option<seq<SearchResult>>)
    requires Describes(c.names, c.ids, c.maxId, c.index, texts) && |c.index| > 0 && IsMemIndex(c.index)
    requires query != [] && QueryHasNoCollision(c.index, query) && Returns(c.index, query, rs)
    ensures rs.None? ==> forall d: Key :: !TextMatches(texts, query, d)
    ensures rs.Some? ==>
              && DistinctDocs(rs.value)
              && forall sr :: sr in rs.value <==>
                   TextMatches(texts, query, sr.docId) && sr.rank == CountAll(texts[sr.docId], query)
  {
    hide Describes, IsMemIndex, NoCollision, TablesFor, HashPostings, CountAll, IsWord, IsMatch, Rank, Ordered,
         StablePermutation, Answer;
    NullWithoutMatch(c.names, c.ids, c.maxId, c.index, texts, query);
    if rs.Some? {
      SearchIsExact(c.index, query, rs.value);
      forall sr
        ensures sr in rs.value <==> TextMatches(texts, query, sr.docId) && sr.rank == CountAll(texts[sr.docId], query)
      {
        SearchReadsTexts(c.names, c.ids, c.maxId, c.index, texts, query, sr.docId);
      }
    }
  }

  lemma MemoryFindsFiles(c: Collection, texts: Texts, files: seq<NamedFile>, query: seq<seq<Byte>>,
                         rs: Option<seq<SearchResult>>)
    requires IsIndexOf(c, texts, files) && AllApart(files) && |c.index| > 0 && IsMemIndex(c.index)
    requires query != [] && QueryHasNoCollision(c.index, query) && Returns(c.index, query, rs)
    ensures |TableOnDisk(c.names)| > 0 && FoundByName(TableOnDisk(c.names), rs) == MatchingFiles(files, query)
  {
    hide *;
    IndexParts(c, texts, files);
    MemoryResults(c, texts, query, rs);
    DocTableOnDisk(c.names);
    ApartPaths(files);
    var found := if rs.None? then [] else rs.value;
    NothingDistinct();
    FilesOfResults(c, texts, files, query, found);
    ResultsAreFiles(c.names, texts, query, files, found);
    FoundAsSequence(TableOnDisk(c.names), rs);
  }

  lemma NothingDistinct()
    ensures DistinctDocs([])
  {
  }

  lemma FoundAsSequence(dt: Table<Value>, rs: Option<seq<SearchResult>>)
    requires |dt| > 0
    ensures FoundByName(dt, rs) == multiset(ByName(dt, if rs.None? then [] else rs.value))
  {
  }

  lemma ApartPaths(files: seq<NamedFile>)
    requires AllApart(files)
    ensures PathsDiffer(files)
  {
    hide FnvHash, WordsApart;
  }

  lemma IndexParts(c: Collection, texts: Texts, files: seq<NamedFile>)
    requires IsIndexOf(c, texts, files)
    ensures Describes(c.names, c.ids, c.maxId, c.index, texts) && IsDocTable(c.names) && |c.names| > 0
    ensures OneDocument(c.names)
  {
    NamesAreApart(c.names, c.ids, c.maxId);
    forall d, e | NameOfId(c.names, d).Some? && NameOfId(c.names, d) == NameOfId(c.names, e)
      ensures d == e
    {
      NameThenId(c.names, c.ids, c.maxId, d);
      NameThenId(c.names, c.ids, c.maxId, e);
    }
    hide NameOfId;
  }

  lemma FilesOfResults(c: Collection, texts: Texts, files: seq<NamedFile>, query: seq<seq<Byte>>, rs: seq<SearchResult>)
    requires IsIndexOf(c, texts, files) && |c.names| > 0
    requires forall sr :: sr in rs <==>
               TextMatches(texts, query, sr.docId) && sr.rank == CountAll(texts[sr.docId], query)
    ensures ResultsFor(c.names, texts, query, files, rs)
  {
    DescribedDocuments(c.names, c.ids, c.maxId, c.index, texts);
    hide Describes, HasWords, IsWord, NameOfId, CountAll, TextOf;
    forall k | 0 <= k < |rs|
      ensures SomeFile(c.names, texts, query, files, rs[k])
    {
      assert rs[k] in rs;
      var d := rs[k].docId;
      assert FromFiles(c.names, texts, d, files, |files|);
      var i :| 0 <= i < |files| && IsDocument(c.names, texts, d, files[i]);
      assert ResultFor(c.names, texts, query, files[i], rs[k]);
    }
    forall i | 0 <= i < |files| && FileMatches(files[i], query)
      ensures SomeResult(c.names, texts, query, files[i], rs)
    {
      assert Recorded(c.names, texts, files[i]);
      var d: Key :| IsDocument(c.names, texts, d, files[i]);
      var sr := SearchResult(d, CountAll(TextOf(files[i]), query));
      assert TextMatches(texts, query, d);
      assert sr in rs;
      var k :| 0 <= k < |rs| && rs[k] == sr;
      assert ResultFor(c.names, texts, query, files[i], rs[k]);
    }
  }

  // ----- the file answers with the matching files exactly when paths differ on disk -----

  ghost predicate FindsFiles(files: seq<NamedFile>, query: seq<seq<Byte>>, validate: bool)
  {
    query != [] && QueryApart(files, query) ==>
      && var ix := Opened(IndexFileOf(files), validate);
      && ix.Some? && IndexAnswer(ix.value, query).Some?
      && ResultsOf(IndexAnswer(ix.value, query).value) == MatchingFiles(files, query)
  }

  // A query that goes wrong on the tables goes wrong for the files.
  lemma WrongForFiles(c: Collection, texts: Texts, files: seq<NamedFile>, query: seq<seq<Byte>>,
                      rs: Option<seq<SearchResult>>, validate: bool)
    requires AllApart(files) && InRange(files) && StorableFiles(files)
    requires c == Built(files, |files|) && texts == TextsOf(files, |files|)
    requires |TableOnDisk(c.names)| > 0 && Sound(TableOnDisk(c.names), c.index)
    requires !Agrees(TableOnDisk(c.names), c.index, query, rs)
    ensures !FindsFiles(files, query, validate)
  {
    hide *;
    InRangeValue(files);
    BuiltCrawled(files, |files|);
    IndexFileValue(files);
    IndexOfCrawled(c, texts, files);
    IndexParts(c, texts, files);
    SoundParts(TableOnDisk(c.names), c.index);
    StorableParts(c.names, c.index);
    DescribedHasNoEmptyWord(c.names, c.ids, c.maxId, c.index, texts);
    StorableIsWritable(c.names, c.index);
    WrittenAgreesValue(c.names, c.index, query, rs, validate);
    AgreesParts(TableOnDisk(c.names), c.index, query, rs);
    MemoryFindsFiles(c, texts, files, query, rs);
    NoClashOfQuery(c, texts, files, query);
    FindsFilesValue(files, query, validate);
    WrittenParts(c.names, c.index, query, rs, validate);
  }

  lemma IndexOfCrawled(c: Collection, texts: Texts, files: seq<NamedFile>)
    ensures IsIndexOf(c, texts, files) <==> Crawled(c.names, c.ids, c.maxId, c.index, texts, files, |files|)
  {
  }

  lemma AgreesParts(dt: Table<Value>, mi: Table<Value>, query: seq<seq<Byte>>, rs: Option<seq<SearchResult>>)
    requires Sound(dt, mi) && !Agrees(dt, mi, query, rs)
    ensures query != [] && QueryHasNoCollision(mi, query) && Returns(mi, query, rs)
  {
    hide QueryHasNoCollision, Returns;
  }

  lemma WrittenParts(dt: Table<Value>, mi: Table<Value>, query: seq<seq<Byte>>, rs: Option<seq<SearchResult>>,
                     validate: bool)
    requires Writable(dt, mi) && !WrittenAgrees(dt, mi, query, rs, validate) && query != []
    ensures |TableOnDisk(dt)| > 0
    ensures var ix := Opened(IndexBytes(dt, mi), validate);
            ix.None? || IndexAnswer(ix.value, query).None?
            || ResultsOf(IndexAnswer(ix.value, query).value) != FoundByName(TableOnDisk(dt), rs)
  {
    WritableParts(dt, mi);
    hide QueryHasNoCollision, Returns, Writable, TableOnDisk, IndexBytes, Opened, IndexAnswer, ResultsOf, FoundByName;
  }

  lemma FindsFilesValue(files: seq<NamedFile>, query: seq<seq<Byte>>, validate: bool)
    requires query != [] && QueryApart(files, query)
    ensures var ix := Opened(IndexFileOf(files), validate);
            FindsFiles(files, query, validate) <==>
            ix.Some? && IndexAnswer(ix.value, query).Some?
            && ResultsOf(IndexAnswer(ix.value, query).value) == MatchingFiles(files, query)
  {
    hide QueryApart, Opened, IndexAnswer, ResultsOf, MatchingFiles, IndexFileOf;
  }

  // A word that the index does not mistake is not mistaken for a word of a file.
  lemma NoClashOfQuery(c: Collection, texts: Texts, files: seq<NamedFile>, query: seq<seq<Byte>>)
    requires IsIndexOf(c, texts, files) && |c.index| > 0 && QueryHasNoCollision(c.index, query)
    ensures QueryApart(files, query)
  {
    hide IsWord, HasWords, TextOf, T.Find, FnvHash, IsIndexOf;
    forall i, j, v | 0 <= i < |files| && 0 <= j < |query| && HasWords(TextOf(files[i]))
      ensures NoClash(files[i], v, query[j])
    {
      if IsWord(TextOf(files[i]), v) {
        WordIsStored(c, texts, files, i, v);
        assert NoCollision(c.index, query[j]);
      }
    }
  }

  lemma WordIsStored(c: Collection, texts: Texts, files: seq<NamedFile>, i: int, v: Text)
    requires IsIndexOf(c, texts, files) && |c.index| > 0 && 0 <= i < |files|
    requires HasWords(TextOf(files[i])) && IsWord(TextOf(files[i]), v)
    ensures var r := T.Find(c.index, FnvHash(v)); r.Some? && r.value.value.Postings? && r.value.value.word == v
  {
    hide IsWord, HasWords, TextOf, T.Find, FnvHash, AsPositions, IsMemIndex, Paired, Starts, NameOfId;
    assert Recorded(c.names, texts, files[i]);
    var d: Key :| IsDocument(c.names, texts, d, files[i]);
    assert PositionsAt(c.index, v, d).Some?;
  }

  // Every query over the index file finds exactly the matching files, exactly when no two
  // files with words have the same path on disk.
  lemma PathsDecide(files: seq<NamedFile>, validate: bool)
    requires AllApart(files) && InRange(files) && StorableFiles(files)
    ensures (forall query :: FindsFiles(files, query, validate)) <==> ApartOnDisk(files)
  {
    hide *;
    if ApartOnDisk(files) {
      forall query
        ensures FindsFiles(files, query, validate)
      {
        PathsSuffice(files, query, validate);
      }
    } else {
      var query := PathsFail(files, validate);
    }
  }

  lemma PathsSuffice(files: seq<NamedFile>, query: seq<seq<Byte>>, validate: bool)
    requires AllApart(files) && InRange(files) && StorableFiles(files) && ApartOnDisk(files)
    ensures FindsFiles(files, query, validate)
  {
    hide AllApart, InRange, StorableFiles, ApartOnDisk, QueryApart, Opened, IndexAnswer, ResultsOf, MatchingFiles;
    if query != [] && QueryApart(files, query) {
      IndexAnswersFiles(files, query, validate);
    }
  }

  lemma PathsFail(files: seq<NamedFile>, validate: bool) returns (query: seq<seq<Byte>>)
    requires AllApart(files) && InRange(files) && StorableFiles(files) && !ApartOnDisk(files)
    ensures !FindsFiles(files, query, validate)
  {
    hide *;
    var c, texts := Built(files, |files|), TextsOf(files, |files|);
    InRangeValue(files);
    BuiltCrawled(files, |files|);
    IndexOfCrawled(c, texts, files);
    IndexParts(c, texts, files);
    IndexIsSound(c, texts);
    SoundOnDisk(c.names, c.index);
    SoundParts(TableOnDisk(c.names), c.index);
    SamePathsPosted(c, texts, files);
    var rs;
    query, rs := SomeQueryFails(TableOnDisk(c.names), c.index);
    WrongForFiles(c, texts, files, query, rs, validate);
  }

  lemma IndexIsSound(c: Collection, texts: Texts)
    requires Describes(c.names, c.ids, c.maxId, c.index, texts)
    ensures Sound(c.names, c.index)
  {
    DescribedParts(c.names, c.ids, c.maxId, c.index, texts);
    DescribedIsComparable(c.names, c.ids, c.maxId, c.index, texts, []);
    hide Describes, IsMemIndex, AllNamed, PostedApart;
  }

  // Two files with words and the same path on disk are two documents of the index with
  // the same name on disk.
  lemma SamePathsPosted(c: Collection, texts: Texts, files: seq<NamedFile>)
    requires IsIndexOf(c, texts, files) && AllApart(files) && !ApartOnDisk(files)
    requires |c.names| > 0 && IsDocTable(c.names) && |c.index| > 0 && |TableOnDisk(c.names)| > 0
    ensures !PostedApart(TableOnDisk(c.names), c.index)
  {
    hide HasWords, TextOf, IsIndexOf, AllApart, NameOnDisk, TableOnDisk, IsDocTable, HasPosting, NameOf;
    var i, j :| 0 <= i < j < |files| && HasWords(TextOf(files[i])) && HasWords(TextOf(files[j]))
                && NameOnDisk(files[i].path) == NameOnDisk(files[j].path);
    var d := DocumentOf(c, texts, files, i);
    var e := DocumentOf(c, texts, files, j);
    ApartPaths(files);
    NameOfOnDisk(c.names, d);
    NameOfOnDisk(c.names, e);
    assert files[i].path != files[j].path;
  }

  lemma DocumentOf(c: Collection, texts: Texts, files: seq<NamedFile>, i: int) returns (d: Key)
    requires IsIndexOf(c, texts, files) && |c.names| > 0 && |c.index| > 0
    requires 0 <= i < |files| && HasWords(TextOf(files[i]))
    ensures NameOf(c.names, d) == files[i].path && HasPosting(c.index, d)
  {
    hide IsWord, HasWords, TextOf, T.Find, FnvHash, AsPositions, IsMemIndex, Paired, Starts, NameOfId, NameOf;
    assert Recorded(c.names, texts, files[i]);
    d :| IsDocument(c.names, texts, d, files[i]);
    SameName(c.names, d);
    var w := AWordOf(TextOf(files[i]));
    assert PositionsAt(c.index, w, d).Some?;
    PostedSomewhere(c.index, w, d);
  }

  lemma AWordOf(s: Text) returns (w: Text)
    requires HasWords(s)
    ensures IsWord(s, w)
  {
    hide IsWord;
    w :| IsWord(s, w);
  }

  lemma PostedSomewhere(t: Table<Value>, w: Text, d: Key)
    requires |t| > 0 && PositionsAt(t, w, d).Some?
    ensures HasPosting(t, d)
  {
    hide T.Find, FnvHash;
    assert PostedUnder(t, FnvHash(w), d);
  }
}
