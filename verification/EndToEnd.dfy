/**
 From the texts of files to the answers of an index file: everything in between
 (tokenizing, indexing, writing, opening, reading) taken together.
 */
module EndToEnd {
  import opened Common
  import opened DiskLayout
  import opened DocTable
  import opened CrawlFiles
  import opened CrawlFileTree
  import opened FileParser
  import opened IndexFile
  import opened LayoutStructs
  import opened LossyNames
  import opened MemIndex
  import opened QueryAgreement
  import opened QueryProcessor
  import opened RoundTrip
  import opened SameNames
  import opened WriteIndex
  import T = Tables

  // An index of the texts that fits the file format.
  predicate Storable(names: Table<Value>, t: Table<Value>)
  {
    && FitsTable(names) && EncodableTable(t)
    && HEADER_SIZE + TableSize(names) + TableSize(t) + HEADER_SIZE <= MAX_INT32
  }

  // The counts are those of the texts that have every query word, by file name on disk.
  ghost predicate CountsTexts(m: Counts, disk: Table<Value>, texts: Texts, query: seq<seq<Byte>>)
    requires |disk| > 0
  {
    && (forall d: Key :: TextMatches(texts, query, d) ==>
          NameOf(disk, d) in m && m[NameOf(disk, d)] == CountAll(texts[d], query))
    && (forall name :: name in m ==> exists d: Key :: TextMatches(texts, query, d) && NameOf(disk, d) == name)
  }

  lemma AnswerCountsTexts(names: Table<Value>, ids: Table<DocIdCell>, maxId: Key, t: Table<Value>, texts: Texts,
                          query: seq<seq<Byte>>, disk: Table<Value>, m: Counts)
    requires Describes(names, ids, maxId, t, texts) && IsMemIndex(t) && |t| > 0 && |disk| > 0 && query != []
    requires forall i :: 0 <= i < |query| ==> NoCollision(t, query[i])
    requires Answers(m, disk, t, query)
    ensures CountsTexts(m, disk, texts, query)
  {
    hide Describes, IsMemIndex, NoCollision, TablesFor, HashPostings, NameOf, CountAll, IsWord,
         InAll, Occurrences, IsMatch, Rank;
    if TablesFor(t, query).None? {
      var i :| 0 <= i < |query| && HashPostings(t, query[i]) == None;
      forall d: Key
        ensures !TextMatches(texts, query, d)
      {
        MissingWord(names, ids, maxId, t, texts, query[i], d);
        WordMissing(texts, query, i, d);
      }
    } else {
      TablesNonEmpty(t, query);
      var tables := TablesFor(t, query).value;
      forall d: Key
        ensures InAll(tables, d) <==> TextMatches(texts, query, d)
        ensures TextMatches(texts, query, d) ==> Occurrences(tables, d) == CountAll(texts[d], query)
      {
        SearchReadsTexts(names, ids, maxId, t, texts, query, d);
        MatchIsText(t, texts, query, d);
      }
      forall d: Key | TextMatches(texts, query, d)
        ensures NameOf(disk, d) in m && m[NameOf(disk, d)] == CountAll(texts[d], query)
      {
        assert InAll(tables, d);
      }
    }
  }

  lemma WordMissing(texts: Texts, query: seq<seq<Byte>>, i: int, d: Key)
    requires 0 <= i < |query| && (d in texts ==> !IsWord(texts[d], query[i]))
    ensures !TextMatches(texts, query, d)
  {
  }

  lemma MatchIsText(t: Table<Value>, texts: Texts, query: seq<seq<Byte>>, d: Key)
    requires IsMemIndex(t) && |t| > 0 && TablesFor(t, query).Some?
    ensures AllTables(TablesFor(t, query).value)
    ensures IsMatch(t, query, d) <==> InAll(TablesFor(t, query).value, d)
    ensures forall i :: 0 <= i < |query| ==> |TablesFor(t, query).value[i]| > 0
    ensures Rank(t, query, d) == Occurrences(TablesFor(t, query).value, d)
    ensures TextMatches(texts, query, d) <==> d in texts && forall i :: 0 <= i < |query| ==> IsWord(texts[d], query[i])
  {
    hide TablesFor, Occurrences, InAll;
    TablesNonEmpty(t, query);
  }

  // Searching the file that an index of texts was written to finds exactly the names,
  // as they are on disk, of the texts that contain every query word, each with the
  // number of times its text contains them.
  lemma FileSearchReadsTexts(names: Table<Value>, ids: Table<DocIdCell>, maxId: Key, t: Table<Value>, texts: Texts,
                             query: seq<seq<Byte>>, validate: bool)
    requires Describes(names, ids, maxId, t, texts) && |t| > 0 && Storable(names, t) && query != []
    requires forall i :: 0 <= i < |query| ==> NoCollision(t, query[i])
    requires |TableOnDisk(names)| > 0 && PostedApart(TableOnDisk(names), t)
    ensures var ix := Opened(IndexBytes(names, t), validate);
            && ix.Some? && IndexAnswer(ix.value, query).Some?
            && CountsTexts(IndexAnswer(ix.value, query).value, TableOnDisk(names), texts, query)
  {
    hide *;
    var disk := TableOnDisk(names);
    StorableParts(names, t);
    DescribedIsComparable(names, ids, maxId, t, texts, query);
    DescribedHasNoEmptyWord(names, ids, maxId, t, texts);
    DescribedIsMemIndex(names, ids, maxId, t, texts);
    StorableIsWritable(names, t);
    ComparableOnDisk(names, t, query);
    WrittenIndexOpens(names, t, validate);
    var ix := Opened(IndexBytes(names, t), validate).value;
    AnswerReadBack(ix, disk, t, query);
    FileAnswers(disk, t, query);
    AnswerCountsTexts(names, ids, maxId, t, texts, query, disk, FileAnswer(disk, t, query));
  }

  lemma StorableIsWritable(names: Table<Value>, t: Table<Value>)
    requires Storable(names, t) && IsDocTable(names) && IsMemIndex(t) && !TableHasEmptyWord(t)
    ensures Writable(names, t)
  {
    hide EncodableTable, FitsTable, TableHasEmptyWord, IsMemIndex, TableSize;
  }

  // The file is indexed, and its text has every query word.
  ghost predicate FileMatches(f: NamedFile, query: seq<seq<Byte>>)
  {
    HasWords(TextOf(f)) && forall i :: 0 <= i < |query| ==> IsWord(TextOf(f), query[i])
  }

  // The counts are those of the files that match, by path on disk.
  ghost predicate CountsFiles(m: Counts, files: seq<NamedFile>, query: seq<seq<Byte>>)
  {
    && (forall i :: 0 <= i < |files| && FileMatches(files[i], query) ==>
          NameOnDisk(files[i].path) in m && m[NameOnDisk(files[i].path)] == CountAll(TextOf(files[i]), query))
    && (forall name :: name in m ==> exists i :: 0 <= i < |files| && IsAnswer(files[i], name, query))
  }

  ghost predicate IsAnswer(f: NamedFile, name: seq<Byte>, query: seq<seq<Byte>>)
  {
    NameOnDisk(f.path) == name && FileMatches(f, query)
  }

  // No word of the files that are indexed has the hash of another query word.
  ghost predicate QueryApart(files: seq<NamedFile>, query: seq<seq<Byte>>)
  {
    forall i, j, v :: 0 <= i < |files| && 0 <= j < |query| && HasWords(TextOf(files[i])) ==>
      NoClash(files[i], v, query[j])
  }

  lemma TextsAreFiles(names: Table<Value>, ids: Table<DocIdCell>, maxId: Key, t: Table<Value>, texts: Texts,
                      files: seq<NamedFile>, query: seq<seq<Byte>>, m: Counts)
    requires Crawled(names, ids, maxId, t, texts, files, |files|) && IsDocTable(names) && |TableOnDisk(names)| > 0
    requires CountsTexts(m, TableOnDisk(names), texts, query)
    ensures CountsFiles(m, files, query)
  {
    hide Describes, HasWords, IsWord, NameOf, NameOfId, CountAll, TextOf, IsDocTable, TableOnDisk, NameOnDisk;
    forall i | 0 <= i < |files| && FileMatches(files[i], query)
      ensures var name := NameOnDisk(files[i].path); name in m && m[name] == CountAll(TextOf(files[i]), query)
    {
      assert Recorded(names, texts, files[i]);
      var d: Key :| IsDocument(names, texts, d, files[i]);
      SameName(names, d);
      NameOfOnDisk(names, d);
      assert TextMatches(texts, query, d);
    }
    forall name | name in m
      ensures exists i :: 0 <= i < |files| && IsAnswer(files[i], name, query)
    {
      var d: Key :| TextMatches(texts, query, d) && NameOf(TableOnDisk(names), d) == name;
      DescribedDocuments(names, ids, maxId, t, texts);
      assert FromFiles(names, texts, d, files, |files|);
      var i :| 0 <= i < |files| && IsDocument(names, texts, d, files[i]);
      SameName(names, d);
      NameOfOnDisk(names, d);
      assert IsAnswer(files[i], name, query);
    }
  }

  lemma SameName(names: Table<Value>, d: Key)
    requires |names| > 0 && NameOfId(names, d).Some?
    ensures NameOfId(names, d) == Some(NameOf(names, d))
  {
  }

  // No two paths of files with words are the same on disk.
  ghost predicate ApartOnDisk(files: seq<NamedFile>)
  {
    forall i, j :: 0 <= i < j < |files| && HasWords(TextOf(files[i])) && HasWords(TextOf(files[j])) ==>
      NameOnDisk(files[i].path) != NameOnDisk(files[j].path)
  }

  lemma NamesApartOnDisk(names: Table<Value>, ids: Table<DocIdCell>, maxId: Key, t: Table<Value>, texts: Texts,
                         files: seq<NamedFile>)
    requires Crawled(names, ids, maxId, t, texts, files, |files|) && ApartOnDisk(files)
    ensures IsDocTable(names) && |t| > 0 && |TableOnDisk(names)| > 0
    ensures NamesApart(TableOnDisk(names)) && PostedApart(TableOnDisk(names), t)
  {
    var disk := TableOnDisk(names);
    CrawledDescribes(names, ids, maxId, t, texts, files);
    DescribedIsComparable(names, ids, maxId, t, texts, []);
    DescribedNames(names, ids, maxId, t, texts);
    DocTableOnDisk(names);
    hide Describes, HasWords, IsWord, NameOf, NameOfId, TextOf, IsDocTable, TableOnDisk, NameOnDisk, T.Find, IsMemIndex;
    forall d: Key, e: Key | T.Find(disk, d).Some? && T.Find(disk, e).Some? && NameOf(disk, d) == NameOf(disk, e)
      ensures d == e
    {
      var i := FileOf(names, ids, maxId, t, texts, files, d);
      var j := FileOf(names, ids, maxId, t, texts, files, e);
      NameOfOnDisk(names, d);
      NameOfOnDisk(names, e);
      assert i == j;
    }
    NamedOnDisk(names, t);
    hide NamesApart;
    ApartIsPostedApart(disk, t);
  }

  lemma NamedOnDisk(names: Table<Value>, t: Table<Value>)
    requires Comparable(names, t, []) && IsDocTable(names)
    ensures |t| > 0 && |TableOnDisk(names)| > 0 && AllNamed(TableOnDisk(names), t)
  {
    hide IsMemIndex, PostedApart, TableOnDisk, IsDocTable;
    SoundOnDisk(names, t);
  }

  lemma DescribedNames(names: Table<Value>, ids: Table<DocIdCell>, maxId: Key, t: Table<Value>, texts: Texts)
    requires Describes(names, ids, maxId, t, texts)
    ensures |names| > 0 && forall d: Key :: T.Find(names, d).Some? <==> 1 <= d < maxId
  {
    NamesAreApart(names, ids, maxId);
  }

  // The file that a document was made of.
  lemma FileOf(names: Table<Value>, ids: Table<DocIdCell>, maxId: Key, t: Table<Value>, texts: Texts,
               files: seq<NamedFile>, d: Key) returns (i: nat)
    requires Crawled(names, ids, maxId, t, texts, files, |files|) && 1 <= d < maxId
    ensures i < |files| && |names| > 0 && NameOf(names, d) == files[i].path && HasWords(TextOf(files[i]))
  {
    hide Describes, HasWords, NameOf, NameOfId, TextOf;
    assert FromFiles(names, texts, d, files, |files|);
    i :| 0 <= i < |files| && IsDocument(names, texts, d, files[i]);
    SameName(names, d);
  }

  // The whole way: the files are crawled, the index is written and opened again, and a
  // query over the file names exactly the files that have every query word, each with
  // the number of times they occur in it.
  lemma SearchFindsFiles(names: Table<Value>, ids: Table<DocIdCell>, maxId: Key, t: Table<Value>, texts: Texts,
                         files: seq<NamedFile>, query: seq<seq<Byte>>, validate: bool)
    requires Crawled(names, ids, maxId, t, texts, files, |files|)
    requires Storable(names, t) && query != [] && QueryApart(files, query) && ApartOnDisk(files)
    ensures var ix := Opened(IndexBytes(names, t), validate);
            && ix.Some? && IndexAnswer(ix.value, query).Some?
            && CountsFiles(IndexAnswer(ix.value, query).value, files, query)
  {
    hide *;
    CrawledDescribes(names, ids, maxId, t, texts, files);
    NamesApartOnDisk(names, ids, maxId, t, texts, files);
    forall j | 0 <= j < |query|
      ensures NoCollision(t, query[j])
    {
      QueryWordApart(files, query, j);
      WordsAreApart(names, ids, maxId, t, texts, files, |files|, query[j]);
    }
    FileSearchReadsTexts(names, ids, maxId, t, texts, query, validate);
    TextsAreFiles(names, ids, maxId, t, texts, files, query,
                  IndexAnswer(Opened(IndexBytes(names, t), validate).value, query).value);
  }

  lemma CrawledDescribes(names: Table<Value>, ids: Table<DocIdCell>, maxId: Key, t: Table<Value>, texts: Texts,
                         files: seq<NamedFile>)
    requires Crawled(names, ids, maxId, t, texts, files, |files|)
    ensures Describes(names, ids, maxId, t, texts) && |t| > 0 && |names| > 0
  {
    hide Describes;
  }

  lemma QueryWordApart(files: seq<NamedFile>, query: seq<seq<Byte>>, j: int)
    requires QueryApart(files, query) && 0 <= j < |query|
    ensures forall i, v :: 0 <= i < |files| && HasWords(TextOf(files[i])) ==> NoClash(files[i], v, query[j])
  {
    hide NoClash;
  }

  // WriteIndex on the structures in memory.  For an index built from texts that fits
  // the format it never fails, and a query over the file counts the texts' words.
  method WriteIndexFile(index: MemIndex, docTable: DocTable, ghost texts: Texts, ghost query: seq<seq<Byte>>)
    returns (r: int, file: Option<File>)
    requires docTable.Valid() && index.Valid() && Storable(docTable.idToName.table, index.table) && query != []
    requires |index.table| > 0 && forall i :: 0 <= i < |query| ==> NoCollision(index.table, query[i])
    requires var disk := TableOnDisk(docTable.idToName.table); |disk| > 0 && PostedApart(disk, index.table)
    requires Describes(docTable.idToName.table, docTable.nameToId.table, docTable.maxId, index.table, texts)
    ensures file.Some? && r == |file.value.bytes| + HEADER_SIZE
    ensures var ix := Opened(file.value.bytes, true);
            && ix.Some? && IndexAnswer(ix.value, query).Some?
            && CountsTexts(IndexAnswer(ix.value, query).value, TableOnDisk(docTable.idToName.table), texts, query)
  {
    hide *;
    ghost var names, ids, maxId := docTable.idToName.table, docTable.nameToId.table, docTable.maxId;
    StorableParts(names, index.table);
    DescribedHasNoEmptyWord(names, ids, maxId, index.table, texts);
    DescribedIsMemIndex(names, ids, maxId, index.table, texts);
    NoNames(index.table);
    FileSearchReadsTexts(names, ids, maxId, index.table, texts, query, true);
    var mi := index.Chains();
    var dt := docTable.idToName.Chains();
    r, file := WriteIndex.WriteIndex(mi, dt);
  }

  lemma StorableParts(names: Table<Value>, t: Table<Value>)
    requires Storable(names, t)
    ensures FitsTable(names) && EncodableTable(t) && FitsTable(t)
    ensures HEADER_SIZE + TableSize(names) + TableSize(t) + HEADER_SIZE <= MAX_INT32
  {
    OnDiskEncodable(t);
    hide EncodableTable, FitsTable, TableSize, TableOnDisk;
  }
}
