/**
 The whole program: directories of files are crawled into indexes, the indexes are
 written to files, and a query over the index files names the files that match.
 */
module SearchFiles {
  import opened Common
  import opened DiskLayout
  import opened DocTable
  import opened CrawlFiles
  import opened CrawlFileTree
  import opened EndToEnd
  import opened FileParser
  import opened LayoutStructs
  import opened QueryAgreement
  import opened QueryProcessor
  import opened WriteIndex

  // ----- the answer, in terms of the files alone -----

  // The matching files under their paths as they are on disk, each with the number of
  // times the query words occur in it.
  ghost function MatchingFiles(files: seq<NamedFile>, query: seq<seq<Byte>>): multiset<QueryResult>
  {
    if files == [] then multiset{} else MatchingFiles(Init(files), query) + OneMatch(Last(files), query)
  }

  ghost function OneMatch(f: NamedFile, query: seq<seq<Byte>>): multiset<QueryResult>
  {
    if FileMatches(f, query) then multiset{QueryResult(NameOnDisk(f.path), CountAll(TextOf(f), query))} else multiset{}
  }

  ghost function AllMatches(sets: seq<seq<NamedFile>>, query: seq<seq<Byte>>): multiset<QueryResult>
  {
    if sets == [] then multiset{} else AllMatches(Init(sets), query) + MatchingFiles(Last(sets), query)
  }

  // One entry more or less in a map of counts is one result more or less.
  lemma ResultsWithout(m: Counts, name: seq<Byte>)
    requires name in m
    ensures ResultsOf(m) == ResultsOf(m - {name}) + multiset{QueryResult(name, m[name])}
  {
    var m', q := m - {name}, QueryResult(name, m[name]);
    var rs, rs' := set n | n in m :: QueryResult(n, m[n]), set n | n in m' :: QueryResult(n, m'[n]);
    assert q !in rs';
    forall r
      ensures r in rs <==> r in rs' || r == q
    {
      if r in rs && r != q {
        assert r.documentName in m';
      }
    }
    assert rs == rs' + {q};
  }

  // No two matching files have the same path on disk.
  ghost predicate MatchesApart(files: seq<NamedFile>, query: seq<seq<Byte>>)
  {
    forall i, j :: 0 <= i < j < |files| && FileMatches(files[i], query) && FileMatches(files[j], query) ==>
      NameOnDisk(files[i].path) != NameOnDisk(files[j].path)
  }

  lemma ApartMatches(files: seq<NamedFile>, query: seq<seq<Byte>>)
    requires ApartOnDisk(files)
    ensures MatchesApart(files, query)
  {
    hide NameOnDisk, HasWords, TextOf, IsWord;
  }

  lemma {:induction false} CountsAreMatches(m: Counts, files: seq<NamedFile>, query: seq<seq<Byte>>)
    requires CountsFiles(m, files, query) && MatchesApart(files, query)
    ensures ResultsOf(m) == MatchingFiles(files, query)
    decreases |files|
  {
    hide FileMatches, NameOnDisk, CountAll, TextOf, ResultsOf;
    if files == [] {
      assert m == map[];
      NoResults();
    } else {
      var before, f, name := Init(files), Last(files), NameOnDisk(Last(files).path);
      assert f == files[|files| - 1];
      if FileMatches(f, query) {
        ResultsWithout(m, name);
        FewerFiles(m, files, query);
        CountsAreMatches(m - {name}, before, query);
      } else {
        SameFiles(m, files, query);
        CountsAreMatches(m, before, query);
      }
    }
  }

  lemma FewerFiles(m: Counts, files: seq<NamedFile>, query: seq<seq<Byte>>)
    requires CountsFiles(m, files, query) && MatchesApart(files, query) && files != []
             && FileMatches(Last(files), query)
    ensures CountsFiles(m - {NameOnDisk(Last(files).path)}, Init(files), query) && MatchesApart(Init(files), query)
  {
    hide FileMatches, NameOnDisk, CountAll, TextOf;
    var before, last := Init(files), NameOnDisk(Last(files).path);
    forall name | name in m - {last}
      ensures exists i :: 0 <= i < |before| && IsAnswer(before[i], name, query)
    {
      var i :| 0 <= i < |files| && IsAnswer(files[i], name, query);
      assert before[i] == files[i];
    }
  }

  lemma SameFiles(m: Counts, files: seq<NamedFile>, query: seq<seq<Byte>>)
    requires CountsFiles(m, files, query) && MatchesApart(files, query) && files != []
             && !FileMatches(Last(files), query)
    ensures CountsFiles(m, Init(files), query) && MatchesApart(Init(files), query)
  {
    hide FileMatches, NameOnDisk, CountAll, TextOf;
    var before := Init(files);
    forall name | name in m
      ensures exists i :: 0 <= i < |before| && IsAnswer(before[i], name, query)
    {
      var i :| 0 <= i < |files| && IsAnswer(files[i], name, query);
      assert before[i] == files[i];
    }
  }

  // ----- index files -----

  // The index of the files fits the format of index files: a condition on the files alone.
  ghost predicate StorableFiles(files: seq<NamedFile>)
  {
    Storable(Built(files, |files|).names, Built(files, |files|).index)
  }

  // The index file of the files.
  ghost function IndexFileOf(files: seq<NamedFile>): seq<Byte>
  {
    IndexBytes(Built(files, |files|).names, Built(files, |files|).index)
  }

  // What a search takes for granted of the files: different hashes, different paths on
  // disk, and sizes within the program's integers.
  ghost predicate Searchable(files: seq<NamedFile>, query: seq<seq<Byte>>)
  {
    AllApart(files) && ApartOnDisk(files) && QueryApart(files, query) && InRange(files)
  }

  ghost predicate InRange(files: seq<NamedFile>)
  {
    |files| < MAX_DOCID - 1 && forall i :: 0 <= i < |files| ==> |files[i].contents| <= MAX_INT32
  }

  // Crawl, then WriteIndex, as in buildfileindex.cc.  There is no index file exactly when
  // the index does not fit the format.
  method BuildIndex(files: seq<NamedFile>) returns (r: Option<seq<Byte>>)
    requires AllApart(files) && InRange(files)
    ensures r == if StorableFiles(files) then Some(IndexFileOf(files)) else None
  {
    hide *;
    InRangeValue(files);
    ChecksPass(files);
    BuiltCrawled(files, |files|);
    ghost var c, texts := Built(files, |files|), TextsOf(files, |files|);
    var docTable, index := Crawl(files);
    CollectedParts(docTable, index);
    CrawledDescribes(c.names, c.ids, c.maxId, c.index, texts, files);
    var mi := index.Chains();
    var dt := docTable.idToName.Chains();
    IndexFileValue(files);
    if !Storable(dt, mi) {
      return None;
    }
    StorableParts(dt, mi);
    DescribedHasNoEmptyWord(c.names, c.ids, c.maxId, mi, texts);
    DescribedIsMemIndex(c.names, c.ids, c.maxId, mi, texts);
    NoNames(mi);
    var size, file := WriteIndex.WriteIndex(mi, dt);
    r := Some(file.value.bytes);
  }

  lemma IndexFileValue(files: seq<NamedFile>)
    ensures var c := Built(files, |files|);
            && (StorableFiles(files) <==> Storable(c.names, c.index))
               && IndexFileOf(files) == IndexBytes(c.names, c.index)
  {
    hide Storable, IndexBytes, Built;
  }

  lemma InRangeValue(files: seq<NamedFile>)
    requires InRange(files)
    ensures |files| < MAX_DOCID - 1 && forall i :: 0 <= i < |files| ==> |files[i].contents| <= MAX_INT32
  {
  }

  // A file with a byte above 0x7F in its text makes no difference.
  lemma NotTextIgnored(files: seq<NamedFile>, f: NamedFile, i: nat, query: seq<seq<Byte>>)
    requires i < |TextOf(f)| && TextOf(f)[i] > 0x7F
    ensures IndexFileOf(files + [f]) == IndexFileOf(files) && (StorableFiles(files + [f]) <==> StorableFiles(files))
    ensures MatchingFiles(files + [f], query) == MatchingFiles(files, query)
  {
    NotText(f, i);
    hide *;
    BuiltNext(files + [f], |files|);
    BuiltPrefix(files, f, |files|);
    AfterFileValue(Built(files, |files|), f.path, TextOf(f));
    IndexFileValue(files);
    IndexFileValue(files + [f]);
    OneMoreFile(files, f, query);
  }

  lemma NotText(f: NamedFile, i: nat)
    requires i < |TextOf(f)| && TextOf(f)[i] > 0x7F
    ensures !HasWords(TextOf(f))
  {
    hide TextOf;
  }

  lemma {:induction false} BuiltPrefix(files: seq<NamedFile>, f: NamedFile, k: nat)
    requires k <= |files|
    ensures Built(files + [f], k) == Built(files, k)
  {
    hide AfterFile, TextOf, NothingYet;
    if k > 0 {
      BuiltPrefix(files, f, k - 1);
    }
  }

  lemma OneMoreFile(files: seq<NamedFile>, f: NamedFile, query: seq<seq<Byte>>)
    ensures !HasWords(TextOf(f)) ==> MatchingFiles(files + [f], query) == MatchingFiles(files, query)
  {
    hide HasWords, TextOf, CountAll, NameOnDisk;
    assert Init(files + [f]) == files;
  }

  // Bytes up to 0x7F do not count as such.
  lemma DeleteIsText()
    ensures HasWords([0x61, 0x7F])
  {
    var s: Text := [0x61, 0x7F];
    assert s[0..1] == [0x61];
    LowerOne(0x61);
    assert RunStart(s, 1) == 0;
    assert Starts(s, [0x61], 2) == Starts(s, [0x61], 1) + [0];
    assert IsWord(s, [0x61]);
  }

  // ----- the search -----

  lemma IndexAnswersFiles(files: seq<NamedFile>, query: seq<seq<Byte>>, validate: bool)
    requires StorableFiles(files) && Searchable(files, query) && query != []
    ensures var ix := Opened(IndexFileOf(files), validate);
            && ix.Some? && IndexAnswer(ix.value, query).Some?
            && ResultsOf(IndexAnswer(ix.value, query).value) == MatchingFiles(files, query)
  {
    hide *;
    SearchableParts(files, query);
    InRangeValue(files);
    IndexFileValue(files);
    BuiltCrawled(files, |files|);
    var c := Built(files, |files|);
    SearchFindsFiles(c.names, c.ids, c.maxId, c.index, TextsOf(files, |files|), files, query, validate);
    ApartMatches(files, query);
    CountsAreMatches(IndexAnswer(Opened(IndexFileOf(files), validate).value, query).value, files, query);
  }

  ghost predicate AllSearchable(sets: seq<seq<NamedFile>>, query: seq<seq<Byte>>)
  {
    forall k :: 0 <= k < |sets| ==> StorableFiles(sets[k]) && Searchable(sets[k], query)
  }

  ghost function IndexFilesOf(sets: seq<seq<NamedFile>>): (r: seq<seq<Byte>>)
    ensures |r| == |sets|
  {
    if sets == [] then [] else IndexFilesOf(Init(sets)) + [IndexFileOf(Last(sets))]
  }

  lemma {:induction false} AllAnswer(sets: seq<seq<NamedFile>>, query: seq<seq<Byte>>, validate: bool)
    requires AllSearchable(sets, query) && query != []
    ensures var indices := AllOpened(IndexFilesOf(sets), validate);
            indices.Some? && AllResults(indices.value, query) == Some(AllMatches(sets, query))
    decreases |sets|
  {
    hide StorableFiles, Searchable, Opened, IndexAnswer, ResultsOf, MatchingFiles, IndexFileOf;
    if sets != [] {
      var files := IndexFilesOf(sets);
      AllAnswer(Init(sets), query, validate);
      IndexAnswersFiles(Last(sets), query, validate);
      assert Init(files) == IndexFilesOf(Init(sets));
      AllOpenedLast(files, validate);
      AllResultsLast(AllOpened(Init(files), validate).value, Opened(Last(files), validate).value, query);
    }
  }

  // Every set of files is indexed, the index files are opened, and the query returns
  // exactly the matching files of all sets, the highest ranks first.  There is no result
  // exactly when the index of some set does not fit the format.
  method Search(sets: seq<seq<NamedFile>>, query: seq<seq<Byte>>, validate: bool) returns (r: Option<seq<QueryResult>>)
    requires query != [] && forall k :: 0 <= k < |sets| ==> Searchable(sets[k], query)
    ensures r.None? <==> exists k :: 0 <= k < |sets| && !StorableFiles(sets[k])
    ensures r.Some? ==> multiset(r.value) == AllMatches(sets, query) && RanksDescend(r.value)
  {
    hide *;
    var indexFiles: seq<seq<Byte>> := [];
    NoIndexes();
    for k := 0 to |sets|
      invariant indexFiles == IndexFilesOf(sets[..k]) && forall j :: 0 <= j < k ==> StorableFiles(sets[j])
    {
      SearchableParts(sets[k], query);
      var file := BuildIndex(sets[k]);
      if file.None? {
        return None;
      }
      OneMoreIndex(sets[..k], sets[k]);
      assert sets[..k + 1] == sets[..k] + [sets[k]];
      indexFiles := indexFiles + [file.value];
    }
    assert sets[..|sets|] == sets;
    AllSearchableIntro(sets, query);
    AllAnswer(sets, query, validate);
    var qp := QueryProcessor.Open(indexFiles, validate);
    r := qp.value.ProcessQuery(query);
  }

  lemma AllSearchableIntro(sets: seq<seq<NamedFile>>, query: seq<seq<Byte>>)
    requires forall k :: 0 <= k < |sets| ==> StorableFiles(sets[k]) && Searchable(sets[k], query)
    ensures AllSearchable(sets, query)
  {
    hide StorableFiles, Searchable;
  }

  lemma NoIndexes()
    ensures IndexFilesOf([]) == []
  {
  }

  lemma SearchableParts(files: seq<NamedFile>, query: seq<seq<Byte>>)
    requires Searchable(files, query)
    ensures AllApart(files) && ApartOnDisk(files) && QueryApart(files, query) && InRange(files)
  {
  }

  lemma OneMoreIndex(sets: seq<seq<NamedFile>>, files: seq<NamedFile>)
    ensures IndexFilesOf(sets + [files]) == IndexFilesOf(sets) + [IndexFileOf(files)]
  {
    hide IndexFileOf;
    assert Init(sets + [files]) == sets;
  }
}
