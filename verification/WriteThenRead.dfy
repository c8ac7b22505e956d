/**
 Reading undoes writing, from the writer (hw3/WriteIndex.cc) to the readers: a table is
 written anywhere into any file, a reader is opened there and asked for any key.
 */
module WriteThenRead {
  import opened Common
  import opened DiskLayout
  import opened DiskRegions
  import opened HashTableReader
  import opened IndexFile
  import opened LayoutStructs
  import opened LossyNames
  import opened QueryAgreement
  import opened RoundTrip
  import opened TableReaders
  import opened WriteIndex
  import Fnv
  import T = Tables

  // The writer puts every byte of the table, or it leaves holes where there are zeros.
  predicate Room(bytes: seq<Byte>, offset: int, t: Table<Value>)
  {
    EncodableTable(t)
    || (FitsTable(t) && Blank(bytes, offset, TableSize(t)) && offset + TableSize(t) <= |bytes|)
  }

  // A table that is written to a file and found there again, with its names on disk.
  // Nothing is found exactly when the write has failed.
  method WriteThenOpen(f: File, offset: int, t: Table<Value>) returns (reader: Option<HashTableReader>)
    requires 0 <= offset && offset + TableSize(t) <= MAX_INT32 && Room(f.bytes, offset, t)
    modifies f
    ensures reader.None? <==> TableHasEmptyWord(t)
    ensures reader.Some? ==>
              && fresh(reader.value) && fresh(reader.value.file) && HoldsTable(f.bytes, offset, TableOnDisk(t))
              && reader.value.file.bytes == f.bytes && reader.value.offset == offset && reader.value.numBuckets == |t|
  {
    hide *;
    OnDiskEncodable(t);
    NoSizeIsFailure(t);
    RoomParts(f.bytes, offset, t);
    ghost var d := f.Snapshot();
    var bytes := WriteHashTable(f, offset, t);
    if bytes == FAILED_WRITE {
      return None;
    }
    FileNotShorter(d, f.Snapshot(), offset, TableCells(t, offset));
    if EncodableTable(t) {
      WrittenIsHeld(d, f.Snapshot(), offset, t);
    } else {
      WrittenIsHeldOnDisk(d, f.Snapshot(), offset, t);
    }
    NumBucketsOfTable(f.bytes, offset, TableOnDisk(t));
    reader := HashTableReader.Open(f.bytes, offset);
  }

  lemma RoomParts(bytes: seq<Byte>, offset: int, t: Table<Value>)
    requires Room(bytes, offset, t)
    ensures !EncodableTable(t) ==>
              FitsTable(t) && Blank(bytes, offset, TableSize(t)) && offset + TableSize(t) <= |bytes|
    ensures |TableOnDisk(t)| == |t|
  {
    hide EncodableTable, FitsTable, Blank, TableSize;
  }

  lemma NoSizeIsFailure(t: Table<Value>)
    ensures TableSize(t) != FAILED_WRITE
  {
  }

  // The name of a document on disk, present or absent.
  method WriteThenLookupName(f: File, offset: int, t: Table<Value>, docId: Key) returns (r: Option<Option<seq<Byte>>>)
    requires 0 <= offset && offset + TableSize(t) <= MAX_INT32 && Room(f.bytes, offset, t) && IsDocTable(t)
    modifies f
    ensures |t| > 0
    ensures r == Some(match T.Find(t, docId) case None => None case Some(kv) => Some(NameOnDisk(kv.value.name)))
  {
    hide *;
    DocTableWellFormed(t);
    FilledBuckets(t);
    NoWords(t);
    DocTableOnDisk(t);
    NameFoundOnDisk(t, docId);
    var base := WriteThenOpen(f, offset, t);
    DocNameReadBack(f.bytes, offset, TableOnDisk(t), docId);
    var reader := new DocTableReader(base.value);
    r := reader.LookupDocID(docId);
  }

  lemma NameFoundOnDisk(t: Table<Value>, docId: Key)
    requires IsDocTable(t)
    ensures |t| > 0 && |TableOnDisk(t)| > 0
    ensures (match T.Find(TableOnDisk(t), docId) case None => None case Some(kv) => Some(kv.value.name))
         == match T.Find(t, docId) case None => None case Some(kv) => Some(NameOnDisk(kv.value.name))
  {
    DocTableOnDisk(t);
    DocNameFound(t, docId);
    hide T.Find, NameOnDisk, TableOnDisk, IsDocTable;
  }

  lemma FilledBuckets(t: Table<Value>)
    requires T.WellFormed(t)
    ensures |t| > 0
  {
  }

  // The positions of a document in the nested table of a word: a table that was written
  // before its own header.  None stands for an element that is absent.
  method WriteThenLookupWord(f: File, offset: int, t: Table<Value>, word: seq<Byte>, docId: Key)
    returns (r: Option<Option<seq<int>>>)
    requires 0 <= offset && offset + TableSize(t) <= MAX_INT32 && EncodableTable(t) && IsIndexTable(t)
    modifies f
    ensures TableHasEmptyWord(t) ==> r == None
    ensures |t| > 0 && (!TableHasEmptyWord(t) ==> r == Some(PositionsOf(t, word, docId)))
  {
    hide *;
    DocTableWellFormed(t);
    FilledBuckets(t);
    OnDiskEncodable(t);
    EncodableRoom(f.bytes, offset, t);
    var base := WriteThenOpen(f, offset, t);
    if base.None? {
      return None;
    }
    WordReadBack(f.bytes, offset, t, word);
    PositionsOfWord(t, word, docId);
    ghost var found := WordTableOffset(f.bytes, offset, |t|, word);
    var reader := new IndexTableReader(base.value);
    if found.value.Some? {
      NumBucketsOfTable(f.bytes, found.value.value, PostingsOf(t, word).value);
      DocPositionsReadBack(f.bytes, found.value.value, PostingsOf(t, word).value, docId);
    }
    var nested := reader.LookupWord(word);
    if nested.value.None? {
      return Some(None);
    }
    r := nested.value.value.LookupDocID(docId);
  }

  lemma EncodableRoom(bytes: seq<Byte>, offset: int, t: Table<Value>)
    requires EncodableTable(t)
    ensures Room(bytes, offset, t)
  {
  }

  // The positions of a word in a document, by way of the nested table.
  function PositionsOf(t: Table<Value>, word: seq<Byte>, docId: Key): Option<seq<int>>
    requires |t| > 0
  {
    match PostingsOf(t, word)
    case None => None
    case Some(table) =>
      if |table| == 0 then None
      else
        match T.Find(table, docId)
        case None => None
        case Some(kv) => if kv.value.Positions? then Some(kv.value.positions) else None
  }

  lemma PositionsOfWord(t: Table<Value>, word: seq<Byte>, docId: Key)
    requires IsIndexTable(t)
    ensures |t| > 0
    ensures PostingsOf(t, word).None? ==> PositionsOf(t, word, docId) == None
    ensures PostingsOf(t, word).Some? ==>
              var table := PostingsOf(t, word).value;
              && IsPostingTable(table) && |table| > 0
              && PositionsOf(t, word, docId)
                 == match T.Find(table, docId) case None => None case Some(kv) => Some(kv.value.positions)
  {
    PostingsArePostings(t, word);
    var table := PostingsOf(t, word);
    if table.Some? {
      DocTableWellFormed(table.value);
      PositionsFound(table.value, docId);
    }
    hide PostingsOf, IsIndexTable, IsPostingTable, T.Find;
  }

  lemma PostingsArePostings(t: Table<Value>, word: seq<Byte>)
    requires IsIndexTable(t)
    ensures |t| > 0 && (PostingsOf(t, word).Some? ==> IsPostingTable(PostingsOf(t, word).value))
  {
    hide T.FindIn, IsPostingTable;
    var r := PostingsOf(t, word);
    if r.Some? {
      var key := Fnv.FnvHash(word);
      BucketKind(t, T.BucketNum(t, key), T.Find(t, key).value);
    }
  }

  lemma PositionsFound(table: Table<Value>, docId: Key)
    requires IsPostingTable(table)
    ensures |table| > 0 && (T.Find(table, docId).Some? ==> T.Find(table, docId).value.value.Positions?)
  {
    hide T.FindIn;
    if T.Find(table, docId).Some? {
      BucketKind(table, T.BucketNum(table, docId), T.Find(table, docId).value);
    }
  }
}
