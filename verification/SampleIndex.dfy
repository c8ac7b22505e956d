/**
 One file of one word, all the way to the bytes of its index file: the hash of the word,
 the numbers and choices of buckets, every record at its offset.
 */
module SampleIndex {
  import opened Common
  import opened CrawlFiles
  import opened CrawlFileTree
  import opened Crc
  import opened DiskLayout
  import opened DocTable
  import opened EndToEnd
  import opened FileParser
  import opened Fnv
  import opened IndexFile
  import opened LayoutStructs
  import opened LetterCase
  import opened MemIndex
  import opened SearchFiles
  import opened SmallFiles
  import opened WriteIndex
  import DiskRegions
  import T = Tables

  function A(): (name: Text)
    ensures |name| == 1
  {
    Chars("a")
  }

  // The word starts at 2 and at 6.
  function SampleText(): (s: Text)
    ensures |s| == 10
  {
    Chars("  The the ")
  }

  function SampleFile(): NamedFile
  {
    NamedFile(A(), SampleText())
  }

  // ----- tables of one pair -----

  function Single<V>(n: nat, kv: KV<V>): (t: Table<V>)
    requires n > 0
    ensures |t| == n
  {
    T.EmptyTable(n)[kv.key % n := Chain([kv])]
  }

  lemma InsertIntoEmpty<V>(n: nat, kv: KV<V>)
    requires n > 0
    ensures T.Resized(T.EmptyTable<V>(n)) == T.EmptyTable(n)
    ensures T.InsertInto(T.EmptyTable(n), kv) == Single(n, kv)
    ensures T.Find(T.EmptyTable<V>(n), kv.key) == None
  {
    hide T.AllPairs;
    T.EmptySize<V>(n);
    assert [kv] + T.Without([], kv.key) == [kv];
  }

  lemma FindSingle<V>(n: nat, kv: KV<V>, value: V)
    requires n > 0
    ensures T.Find(Single(n, kv), kv.key) == Some(kv)
    ensures T.SetIn(Single(n, kv), kv.key, value) == Single(n, KV(kv.key, value))
  {
    var t, b := Single(n, kv), kv.key % n;
    assert t[b].kvs == [kv] && T.IndexIn([kv], kv.key) == 0;
    assert [kv][0 := KV(kv.key, value)] == [KV(kv.key, value)];
    assert t[b := Chain([KV(kv.key, value)])] == Single(n, KV(kv.key, value));
  }

  lemma PairsOfSingle<V>(n: nat, kv: KV<V>)
    requires n > 0
    ensures T.AllPairs(Single(n, kv)) == [kv]
  {
    hide T.AllPairs;
    var e, b := T.EmptyTable<V>(n), kv.key % n;
    T.EmptySize<V>(n);
    T.AllPairsReplace(e, b, Chain([kv]));
    assert |T.AllPairs(e[..b]) + T.AllPairs(e[b + 1..])| == 0;
  }

  // ----- the words -----

  lemma Runs()
    ensures var s := SampleText();
            && RunStart(s, 0) == 0 && RunStart(s, 1) == 1 && RunStart(s, 2) == 2 && RunStart(s, 5) == 2
            && RunStart(s, 6) == 6 && RunStart(s, 9) == 6
            && !IsAlpha(s[0]) && !IsAlpha(s[1]) && !IsAlpha(s[5]) && !IsAlpha(s[9])
  {
    var s := SampleText();
    assert RunStart(s, 3) == 2 && RunStart(s, 4) == 2;
    assert RunStart(s, 7) == 6 && RunStart(s, 8) == 6;
  }

  lemma LowerWords()
    ensures var s := SampleText(); Lower(s[2..5]) == The() && Lower(s[6..9]) == The()
  {
  }

  lemma WordsOfSample()
    ensures var s := SampleText();
            && WordAt(s, 0) == None && WordAt(s, 1) == None && WordAt(s, 5) == Some(The())
               && WordAt(s, 9) == Some(The())
  {
    hide Lower, RunStart, IsAlpha, SampleText, The;
    Runs();
    LowerWords();
  }

  lemma SampleTable()
    ensures var s := SampleText();
            WordTable(s, 10) == Single(32, KV(FnvHash(The()), WordPositions(The(), [2, 6])))
  {
    hide *;
    var s := SampleText();
    Runs();
    WordsOfSample();
    NoWordTable(s);
    BucketsValue();
    WordTableNext(s, 0);
    WordTableNext(s, 1);
    RunIsQuiet(s, 5);
    WordTableNext(s, 5);
    RunIsQuiet(s, 9);
    WordTableNext(s, 9);
    var first := KV(FnvHash(The()), WordPositions(The(), [2]));
    InsertIntoEmpty(32, first);
    AddedWordValue(WordTable(s, 5), The(), 2);
    FindSingle(32, first, WordPositions(The(), [2, 6]));
    AddedWordValue(WordTable(s, 9), The(), 6);
    assert [2] + [6] == [2, 6];
  }

  // ----- the hash of the word -----

  lemma LowBytes()
    ensures Xor(ToBits(0x25, 8), ToBits(0x74, 8)) == ToBits(0x51, 8)
    ensures Xor(ToBits(0xA3, 8), ToBits(0x68, 8)) == ToBits(0xCB, 8)
    ensures Xor(ToBits(0xF1, 8), ToBits(0x65, 8)) == ToBits(0x94, 8)
  {
    hide ToBits, Xor;
    XorOfDigits(0x2, 0x5, 0x7, 0x4, 0x5, 0x1);
    XorOfDigits(0xA, 0x3, 0x6, 0x8, 0xC, 0xB);
    XorOfDigits(0xF, 0x1, 0x6, 0x5, 0x9, 0x4);
  }

  lemma Letters()
    ensures The() == [] + [0x74] + [0x68] + [0x65]
  {
  }

  lemma ThreeSteps()
    ensures FnvStep(0xcbf2_9ce4_8422_2325, 0x74) == 0xaf63_e94c_8602_02a3
    ensures FnvStep(0xaf63_e94c_8602_02a3, 0x68) == 0x08c8_3807_b56a_bef1
    ensures FnvStep(0x08c8_3807_b56a_bef1, 0x65) == 0x56f5_c919_4461_d57c
  {
    hide FnvStep, ToBits, Xor;
    LowBytes();
    NextHash(0xcbf2_9ce4_8422_2325, 0x74, 0x51);
    NextHash(0xaf63_e94c_8602_02a3, 0x68, 0xCB);
    NextHash(0x08c8_3807_b56a_bef1, 0x65, 0x94);
  }

  lemma HashOfThe()
    ensures FnvHash(The()) == 0x56f5_c919_4461_d57c
  {
    hide *;
    Letters();
    HashOfNothing();
    ThreeSteps();
    OneMoreOctet([], 0x74);
    OneMoreOctet([] + [0x74], 0x68);
    OneMoreOctet([] + [0x74] + [0x68], 0x65);
  }

  lemma OneMoreOctet(word: seq<Byte>, octet: Byte)
    ensures FnvHash(word + [octet]) == FnvStep(FnvHash(word), octet)
  {
    hide FnvStep, FnvFrom;
    FnvFromConcat(FNV1_64_INIT, word, [octet]);
    OneStep(FnvHash(word), octet);
  }

  // ----- the tables of the index -----

  function SampleNames(): Table<Value>
  {
    Single(2, KV(1, DocName(A())))
  }

  function SamplePostings(): Table<Value>
  {
    Single(1, KV(1, Positions([2, 6])))
  }

  function SampleWords(): Table<Value>
  {
    Single(16, KV(FnvHash(The()), Postings(The(), SamplePostings())))
  }

  lemma AddedToEmpty(n: nat, word: Text, d: Key, ps: seq<Position>)
    requires n > 0
    ensures Added(T.EmptyTable(n), word, d, ps)
         == Single(n, KV(FnvHash(word), Postings(word, Single(1, KV(d, Positions(ps))))))
  {
    var key, empty := FnvHash(word), T.EmptyTable<Value>(1);
    var newWord := KV(key, Postings(word, empty));
    InsertIntoEmpty(n, newWord);
    InsertIntoEmpty(1, KV(d, Positions(ps)));
    FindSingle(n, newWord, Postings(word, Single(1, KV(d, Positions(ps)))));
    hide T.Find, T.SetIn, T.InsertInto, T.Resized, T.EmptyTable, FnvHash, Single;
    assert NewWord(T.EmptyTable(n), word) == Single(n, newWord);
    assert Posted(empty, d, ps) == Single(1, KV(d, Positions(ps)));
  }

  lemma PlainSample()
    ensures Ascii(SampleText()) && forall i :: 0 <= i < |SampleText()| ==> SampleText()[i] != 0
  {
  }

  lemma SampleHasWords()
    ensures TextOf(SampleFile()) == SampleText() && HasWords(SampleText())
  {
    hide TextOf, Ascii, Lower, RunStart, IsAlpha, The, WordAt, SampleText, Starts, A;
    PlainSample();
    WholeText(A(), SampleText());
    Runs();
    WordsOfSample();
    StartsNext(SampleText(), The(), 9);
    assert IsWord(SampleText(), The());
  }

  lemma SampleBuilt()
    ensures var c := Built([SampleFile()], 1); c.names == SampleNames() && c.index == SampleWords() && c.maxId == 2
  {
    hide *;
    var f, empty := SampleFile(), NothingYet();
    var s := SampleText();
    NothingYetValue([f]);
    BuiltNext([f], 0);
    SampleHasWords();
    SampleFileValue();
    AfterFileValue(empty, f.path, s);
    SampleTable();
    PairsOfSingle(32, KV(FnvHash(The()), WordPositions(The(), [2, 6])));
    SampleAdded();
    SampleNamed();
  }

  lemma SampleFileValue()
    ensures SampleFile().path == A()
  {
  }

  lemma SampleNamed()
    ensures var c := WithName(NothingYet(), A());
            c.names == SampleNames() && c.maxId == 2 && IdFor(NothingYet().ids, 1, A()) == 1
  {
    InsertIntoEmpty(2, KV(1, DocName(A())));
    InsertIntoEmpty(2, KV(FnvHash(A()), DocIdCell(1)));
    hide FnvHash, T.InsertInto, T.Resized, T.Find, T.EmptyTable, Single, A;
    NothingYetValue([]);
    WithNameValue(NothingYet(), A());
    assert IdOf(NothingYet().ids, A()) == INVALID_DOCID;
  }

  lemma SampleAdded()
    ensures PostAll(T.EmptyTable(16), [KV(FnvHash(The()), WordPositions(The(), [2, 6]))], 1) == SampleWords()
  {
    hide *;
    AddedToEmpty(16, The(), 1, [2, 6]);
    SamePositions();
    PostOne(T.EmptyTable(16), KV(FnvHash(The()), WordPositions(The(), [2, 6])), 1);
    SampleWordsValue();
  }

  lemma SampleWordsValue()
    ensures SampleWords() == Single(16, KV(FnvHash(The()), Postings(The(), Single(1, KV(1, Positions([2, 6]))))))
  {
    hide Single, FnvHash, The;
  }

  lemma SamePositions()
    ensures AsPositions([2, 6]) == [2, 6]
  {
  }

  lemma PostOne(t: Table<Value>, kv: KV<WordPositions>, d: Key)
    requires |t| > 0
    ensures PostAll(t, [kv], d) == Added(t, kv.value.word, d, AsPositions(kv.value.positions))
  {
    hide Added, AsPositions;
    assert Init([kv]) == [];
  }

  // ----- the layout of a table of one pair -----

  function Rows(n: nat, row: seq<Byte>): (bs: seq<Byte>)
    ensures |bs| == n * |row|
  {
    if n == 0 then [] else Rows(n - 1, row) + row
  }

  function RecordBytes(elements: int, pos: int): seq<Byte>
  {
    BigEndian(elements, 4) + BigEndian(pos, 4)
  }

  lemma NoRoom(c: Chain<Value>, at: int)
    ensures BucketRecord(|c.kvs|, at).ToDisk() == RecordBytes(|c.kvs|, at)
    ensures c.kvs == [] ==> BucketSize(c) == 0 && BucketCells(c, at) == []
  {
  }

  lemma RowsNext(n: nat, row: seq<Byte>)
    ensures Rows(n + 1, row) == Rows(n, row) + row && Rows(0, row) == []
  {
  }

  // Empty buckets at the end take records only, and all of the same bytes.
  lemma {:induction false} EmptyBuckets(t: Table<Value>, k: nat, pos: int)
    ensures var t' := t + T.EmptyTable<Value>(k);
            && BucketRecords(t', pos) == BucketRecords(t, pos) + Rows(k, RecordBytes(0, pos + BucketsSize(t)))
            && BucketsSize(t') == BucketsSize(t) && BucketsCells(t', pos) == BucketsCells(t, pos)
  {
    hide *;
    var t', row := t + T.EmptyTable<Value>(k), RecordBytes(0, pos + BucketsSize(t));
    if k == 0 {
      RowsNext(0, row);
      assert t' == t;
    } else {
      EmptyBuckets(t, k - 1, pos);
      LastEmpty(t, k);
      RowsNext(k - 1, row);
      NoRoom(Last(t'), pos + BucketsSize(t));
      DiskRegions.BucketRecordsLast(t', pos);
      DiskRegions.BucketsCellsLast(t', pos);
    }
  }

  lemma LastEmpty(t: Table<Value>, k: nat)
    requires k > 0
    ensures var t' := t + T.EmptyTable<Value>(k);
            t' != [] && Init(t') == t + T.EmptyTable<Value>(k - 1) && Last(t').kvs == []
  {
  }

  lemma LastOne<A>(s: seq<A>, x: A)
    ensures Init(s + [x]) == s && Last(s + [x]) == x
  {
  }

  lemma OneBucket(t: Table<Value>, kv: KV<Value>, pos: int)
    ensures var t', at := t + [Chain([kv])], pos + BucketsSize(t);
            && BucketRecords(t', pos) == BucketRecords(t, pos) + RecordBytes(1, at)
            && BucketsSize(t') == BucketsSize(t) + 4 + ElementSize(kv)
            && BucketsCells(t', pos) == BucketsCells(t, pos) + (BigEndian(at + 4, 4) + ElementCells(kv, at + 4))
  {
    hide *;
    var t', at := t + [Chain([kv])], pos + BucketsSize(t);
    LastOne(t, Chain([kv]));
    NoRoom(Chain([kv]), at);
    BucketOfOne(kv, at);
    DiskRegions.BucketRecordsLast(t', pos);
    DiskRegions.BucketsCellsLast(t', pos);
  }

  lemma BucketOfOne(kv: KV<Value>, at: int)
    ensures BucketSize(Chain([kv])) == 4 + ElementSize(kv)
    ensures BucketCells(Chain([kv]), at) == BigEndian(at + 4, 4) + ElementCells(kv, at + 4)
  {
    hide ElementSize, ElementCells, BigEndian;
    assert Init([kv]) == [] && Last([kv]) == kv;
    assert ElementsSize([]) == 0 && ElementsSize([kv]) == ElementSize(kv);
    assert PositionRecords([], at + 4) == [] && PositionRecords([kv], at + 4) == [] + BigEndian(at + 4, 4);
    assert ElementsCells([], at + 4) == [] && ElementsCells([kv], at + 4) == [] + ElementCells(kv, at + 4);
  }

  lemma SingleParts(n: nat, kv: KV<Value>)
    requires n > 0
    ensures var b := kv.key % n;
            Single(n, kv) == [] + T.EmptyTable<Value>(b) + [Chain([kv])] + T.EmptyTable<Value>(n - 1 - b)
  {
  }

  lemma NoBuckets(pos: int)
    ensures BucketRecords([], pos) == [] && BucketsSize([]) == 0 && BucketsCells([], pos) == []
  {
  }

  lemma TableParts(t: Table<Value>, off: int)
    ensures TableSize(t) == 4 + 8 * |t| + BucketsSize(t)
    ensures var start := off + 4 + 8 * |t|;
            TableCells(t, off) == BigEndian(|t|, 4) + BucketRecords(t, start) + BucketsCells(t, start)
  {
    hide BucketRecords, BucketsCells, BucketsSize, BigEndian;
  }

  lemma SingleCells(n: nat, kv: KV<Value>, off: int)
    requires n > 0
    ensures var b, start := kv.key % n, off + 4 + 8 * n;
            && TableSize(Single(n, kv)) == 4 + 8 * n + 4 + ElementSize(kv)
            && TableCells(Single(n, kv), off)
               == BigEndian(n, 4) + (Rows(b, RecordBytes(0, start)) + RecordBytes(1, start)
                  + Rows(n - 1 - b, RecordBytes(0, start + 4 + ElementSize(kv))))
                  + (BigEndian(start + 4, 4) + ElementCells(kv, start + 4))
  {
    hide *;
    var t, b, start := Single(n, kv), kv.key % n, off + 4 + 8 * n;
    var front: Table<Value> := [] + T.EmptyTable<Value>(b);
    SingleParts(n, kv);
    NoBuckets(start);
    TableParts(t, off);
    EmptyBuckets([], b, start);
    OneBucket(front, kv, start);
    EmptyBuckets(front + [Chain([kv])], n - 1 - b, start);
  }

  // ----- the bytes -----

  lemma SmallFields(x: Byte)
    ensures BigEndian(x, 2) == [0, x] && BigEndian(x, 4) == [0, 0, 0, x]
    ensures BigEndian(x, 8) == [0, 0, 0, 0, 0, 0, 0, x]
  {
    ZeroField(1);
    ZeroField(3);
    ZeroField(7);
  }

  lemma {:induction false} ZeroField(n: nat)
    ensures BigEndian(0, n) == Zeros(n)
    decreases n
  {
    if n > 0 {
      ZeroField(n - 1);
    }
  }

  // The table of documents: two buckets, document 1 in the second.
  function DocumentBytes(): seq<Byte>
  {
    [0, 0, 0, 2]
    + [0, 0, 0, 0, 0, 0, 0, 36]
    + [0, 0, 0, 1, 0, 0, 0, 36]
    + [0, 0, 0, 40]
    + [0, 0, 0, 0, 0, 0, 0, 1, 0, 1] + A()
  }

  // The table of words: sixteen buckets, the word in the thirteenth.
  function WordBytes(): seq<Byte>
  {
    [0, 0, 0, 16]
    + (Rows(12, [0, 0, 0, 0, 0, 0, 0, 183]) + [0, 0, 0, 1, 0, 0, 0, 183] + Rows(3, [0, 0, 0, 0, 0, 0, 0, 232]))
    + [0, 0, 0, 187]
    + [0, 3, 0, 0, 0, 36] + The() + PostingBytes()
  }

  // Its documents: one bucket, and document 1 with the two positions.
  function PostingBytes(): seq<Byte>
  {
    [0, 0, 0, 1]
    + [0, 0, 0, 1, 0, 0, 0, 208]
    + [0, 0, 0, 212]
    + [0, 0, 0, 0, 0, 0, 0, 1, 0, 0, 0, 2] + ([0, 0, 0, 2] + [0, 0, 0, 6])
  }

  lemma RecordOf(elements: Byte, pos: Byte)
    ensures RecordBytes(elements, pos) == [0, 0, 0, elements, 0, 0, 0, pos]
  {
    SmallFields(elements);
    SmallFields(pos);
    hide BigEndian;
  }

  // Short ASCII strings are written as they are.
  lemma WrittenAsIs(name: Text)
    requires |name| <= MAX_INT16
    ensures Length16(name) >= 0 && Written(name) == name && (Ascii(name) ==> NameCells(name) == name)
  {
    Length16Bound(name);
    hide Ascii, Length16;
    assert name + Holes(0) == name;
  }

  lemma LettersAreAscii()
    ensures Ascii(A()) && Ascii(The())
  {
  }

  lemma DocumentElement()
    ensures var kv := KV(1, DocName(A()));
            ElementSize(kv) == 11 && ElementCells(kv, 40) == [0, 0, 0, 0, 0, 0, 0, 1, 0, 1] + A()
  {
    SmallFields(1);
    WrittenAsIs(A());
    LettersAreAscii();
    hide BigEndian, A, Written, NameCells;
    assert DoctableElementHeader(1, 1).ToDisk() == [0, 0, 0, 0, 0, 0, 0, 1, 0, 1];
  }

  lemma DocumentCells()
    ensures TableSize(SampleNames()) == 35 && TableCells(SampleNames(), 16) == DocumentBytes()
  {
    hide BigEndian, RecordBytes, TableCells, TableSize, ElementCells, ElementSize, Single, Rows;
    var kv := KV(1, DocName(A()));
    SingleCells(2, kv, 16);
    DocumentElement();
    SmallFields(2);
    SmallFields(40);
    RecordOf(0, 36);
    RecordOf(1, 36);
    RowsNext(0, RecordBytes(0, 36));
    RowsNext(0, RecordBytes(0, 51));
  }

  lemma TwoPositions()
    ensures PositionsBytes([2, 6]) == [0, 0, 0, 2] + [0, 0, 0, 6]
  {
    SmallFields(2);
    SmallFields(6);
    hide BigEndian;
    var ps: seq<Position> := [2, 6];
    assert Init(ps) == [2] && Init<Position>([2]) == [];
    assert PositionsBytes([2]) == PositionsBytes([]) + [0, 0, 0, 2];
  }

  lemma PostingElement()
    ensures var kv := KV(1, Positions([2, 6]));
            && ElementSize(kv) == 20
            && ElementCells(kv, 212) == [0, 0, 0, 0, 0, 0, 0, 1, 0, 0, 0, 2] + ([0, 0, 0, 2] + [0, 0, 0, 6])
  {
    hide BigEndian, PositionsBytes;
    TwoPositions();
    SmallFields(1);
    SmallFields(2);
    assert DocIDElementHeader(1, 2).ToDisk() == [0, 0, 0, 0, 0, 0, 0, 1, 0, 0, 0, 2];
  }

  lemma PostingCells()
    ensures TableSize(SamplePostings()) == 36 && TableCells(SamplePostings(), 196) == PostingBytes()
  {
    hide BigEndian, RecordBytes, TableCells, TableSize, ElementCells, ElementSize, Single, Rows;
    SingleCells(1, KV(1, Positions([2, 6])), 196);
    PostingElement();
    SmallFields(1);
    SmallFields(212);
    RecordOf(1, 208);
    RowsNext(0, RecordBytes(0, 208));
    RowsNext(0, RecordBytes(0, 232));
  }

  lemma ElementOfWord(word: Text, key: Key, t: Table<Value>, off: int)
    requires |word| <= MAX_INT16
    ensures var kv := KV(key, Postings(word, t));
            && ElementSize(kv) == 6 + |word| + TableSize(t)
            && ElementCells(kv, off)
               == BigEndian(|word|, 2) + BigEndian(TableSize(t), 4) + word + TableCells(t, off + 6 + |word|)
  {
    WrittenAsIs(word);
    hide BigEndian, TableSize, TableCells, Written, Length16;
    assert Written(word) == word;
  }

  lemma WordElement()
    ensures var kv := KV(FnvHash(The()), Postings(The(), SamplePostings()));
            && ElementSize(kv) == 45
            && ElementCells(kv, 187) == [0, 3, 0, 0, 0, 36] + The() + PostingBytes()
  {
    hide BigEndian, FnvHash, TableSize, TableCells, ElementSize, ElementCells, SamplePostings, PostingBytes, The;
    SmallFields(3);
    SmallFields(36);
    PostingCells();
    ElementOfWord(The(), FnvHash(The()), SamplePostings(), 187);
  }

  lemma WordCells()
    ensures TableSize(SampleWords()) == 181 && TableCells(SampleWords(), 51) == WordBytes()
  {
    hide BigEndian, FnvHash, RecordBytes, TableCells, TableSize, ElementCells, ElementSize, Single, Rows, The,
         SamplePostings, PostingBytes;
    var kv := KV(FnvHash(The()), Postings(The(), SamplePostings()));
    HashOfThe();
    SingleCells(16, kv, 51);
    WordElement();
    SmallFields(16);
    SmallFields(187);
    RecordOf(0, 183);
    RecordOf(1, 183);
    RecordOf(0, 232);
  }

  // The index file: a header with the magic number, the checksum of what follows it and
  // the sizes of the tables, and the two tables.
  lemma SampleBytes()
    ensures var s := IndexFileOf([SampleFile()]);
            && StorableFiles([SampleFile()])
            && s[16..] == DocumentBytes() + WordBytes()
            && s[..16] == [0xCA, 0xFE, 0xF0, 0x0D] + BigEndian(ToNat(Crc32Of(s[16..])), 4) + [0, 0, 0, 35]
                          + [0, 0, 0, 181]
  {
    hide *;
    SampleBuilt();
    IndexFileValue([SampleFile()]);
    IndexBytesValue(SampleNames(), SampleWords());
    DocumentCells();
    WordCells();
    FilledBytes(DocumentBytes() + WordBytes());
    SampleHeader(DocumentBytes() + WordBytes());
    SampleFits();
  }

  lemma SampleHeader(body: seq<Byte>)
    ensures HeaderFor(body, 35, 181).ToDisk()
         == [0xCA, 0xFE, 0xF0, 0x0D] + BigEndian(ToNat(Crc32Of(body)), 4) + [0, 0, 0, 35] + [0, 0, 0, 181]
  {
    SmallFields(35);
    SmallFields(181);
    MagicBytes();
    hide BigEndian, ToNat, Crc32Of;
  }

  lemma MagicBytes()
    ensures BigEndian(MAGIC_NUMBER, 4) == [0xCA, 0xFE, 0xF0, 0x0D]
  {
    Pow256Values();
    BigEndianSplit(0xCAFE, 0xF00D, 2, 2);
    TwoBytes(0xCA, 0xFE);
    TwoBytes(0xF0, 0x0D);
    hide BigEndian;
  }

  lemma SingleFits(n: nat, kv: KV<Value>)
    requires n > 0
    ensures Fits(kv) ==> FitsTable(Single(n, kv))
    ensures Encodable(kv) ==> EncodableTable(Single(n, kv))
  {
    hide Fits, Encodable;
  }

  lemma EncodablePosting(word: Text, key: Key, t: Table<Value>)
    requires |word| <= MAX_INT16 && EncodableTable(t)
    ensures Encodable(KV(key, Postings(word, t)))
  {
    hide EncodableTable;
  }

  lemma SampleFits()
    ensures Storable(SampleNames(), SampleWords())
  {
    hide TableSize, TableCells, FitsTable, EncodableTable, SampleNames, SampleWords, DocumentBytes, WordBytes;
    DocumentCells();
    WordCells();
    NameFits();
    WordFits();
    HeaderSizeValue();
    StorableIntro(SampleNames(), SampleWords());
  }

  lemma NameFits()
    ensures FitsTable(SampleNames())
  {
    hide Written, NameCells, Single, FitsTable, A, Length16;
    WrittenAsIs(A());
    SingleFits(2, KV(1, DocName(A())));
  }

  lemma WordFits()
    ensures EncodableTable(SampleWords())
  {
    hide EncodableTable, FitsTable, Single, FnvHash, The;
    SingleFits(1, KV(1, Positions([2, 6])));
    EncodablePosting(The(), FnvHash(The()), SamplePostings());
    SingleFits(16, KV(FnvHash(The()), Postings(The(), SamplePostings())));
  }
}
