/**
 What the index writer (hw3/WriteIndex.cc) does not write in full: it leaves out the
 bytes of a file name that are not ASCII, and the length fields have 16 bits.  What is
 on disk afterwards is the layout of another table, the table on disk.
 */
module LossyNames {
  import opened Common
  import opened LayoutStructs
  import opened IndexFile
  import opened DiskLayout

  // ----- strings -----

  lemma {:induction false} AsciiOnlyIsAscii(s: seq<Byte>)
    ensures Ascii(AsciiOnly(s))
  {
    if s != [] {
      AsciiOnlyIsAscii(Init(s));
    }
  }

  lemma WrittenAll(s: seq<Byte>)
    ensures Written(s) == s <==> |s| <= MAX_INT16
    ensures Written(Written(s)) == Written(s) && |Written(s)| <= MAX_INT16
  {
    Length16Bound(s);
    Length16Bound(Written(s));
    assert s[..|s|] == s;
  }

  // The name on disk is ASCII, and fits.
  lemma NameOnDiskFits(name: seq<Byte>)
    ensures Ascii(NameOnDisk(name)) && |NameOnDisk(name)| <= MAX_INT16
  {
    WrittenAll(name);
    AsciiOnlyIsAscii(Written(name));
    hide Written, AsciiOnly;
  }

  // A name comes back as it was exactly when it is ASCII and its length fits in 16 bits.
  lemma NameSurvivesIff(name: seq<Byte>)
    ensures NameOnDisk(name) == name <==> Ascii(name) && |name| <= MAX_INT16
  {
    NameOnDiskFits(name);
    WrittenAll(name);
    hide Written, AsciiOnly;
    if Ascii(name) && |name| <= MAX_INT16 {
      assert AsciiOnly(name) + Zeros(0) == name;
    }
  }

  // For example, of the name "\u00e9a" in UTF-8 only "a" is left, and two zeros.
  lemma AccentIsLost()
    ensures NameOnDisk([0xC3, 0xA9, 0x61]) == [0x61, 0, 0]
  {
    var name: seq<Byte> := [0xC3, 0xA9, 0x61];
    WrittenAll(name);
    assert Init(name) == [0xC3, 0xA9] && Init(Init(name)) == [0xC3] && Init(Init(Init(name))) == [];
    assert AsciiOnly([0xC3]) == [];
    assert AsciiOnly([0xC3, 0xA9]) == [];
    assert AsciiOnly(name) == [0x61];
  }

  // Characters up to 0x7F are kept.
  lemma OneCharacter(c: Byte)
    ensures NameOnDisk([c]) == [if c <= 0x7F then c else 0]
  {
    WrittenAll([c]);
    assert Init([c]) == [];
  }

  // From 0x8000 on the length is negative as a number of 16 bits, and from 0x10000 on it
  // starts again at 0.
  lemma LongStrings(s: seq<Byte>)
    ensures 0x8000 <= |s| < 0x1_0000 ==> Written(s) == []
    ensures 0x1_0000 <= |s| < 0x1_8000 ==> Written(s) == s[..|s| - 0x1_0000]
  {
    Pow256Values();
  }

  lemma WholeName(name: seq<Byte>)
    requires Ascii(name) && |name| <= MAX_INT16
    ensures Written(name) == name && NameCells(name) == name
  {
    WrittenAll(name);
    assert AsciiOnly(name) + Holes(0) == name;
  }

  lemma NameFilled(name: seq<Byte>)
    ensures NameCells(NameOnDisk(name)) == Filled(NameCells(name))
    ensures |Written(NameOnDisk(name))| == |Written(name)|
  {
    var w := NameOnDisk(name);
    NameOnDiskFits(name);
    WrittenAll(w);
    hide Written, AsciiOnly;
    assert AsciiOnly(w) + Holes(0) == w;
  }

  // ----- the table on disk -----

  lemma {:induction false} ElementFilled(kv: KV<Value>, off: int)
    ensures ElementSize(OnDisk(kv)) == ElementSize(kv)
    ensures ElementCells(OnDisk(kv), off) == Filled(ElementCells(kv, off))
    ensures Nameless(kv) ==> Filled(ElementCells(kv, off)) == ElementCells(kv, off)
    decreases kv, 0
  {
    hide *;
    match kv.value
    case DocName(name) =>
      NameElement(kv, off);
      NameFilled(name);
      FilledConcat(NameHeader(kv), NameCells(name));
      FilledBytes(NameHeader(kv));
    case Positions(_) =>
      PositionsAreBytes(kv, off);
    case Postings(word, table) =>
      TableFilled(table, off + 6 + |Written(word)|);
      PostingsElement(kv, off);
      NamelessInside(kv);
      FilledConcat(PostingsFront(kv), TableCells(table, off + 6 + |Written(word)|));
      FilledBytes(PostingsFront(kv));
  }

  function NameHeader(kv: KV<Value>): seq<Byte>
    requires kv.value.DocName?
  {
    DoctableElementHeader(kv.key, |Written(kv.value.name)|).ToDisk()
  }

  lemma NameElement(kv: KV<Value>, off: int)
    requires kv.value.DocName?
    ensures var name := kv.value.name;
            && OnDisk(kv) == KV(kv.key, DocName(NameOnDisk(name))) && !Nameless(kv)
            && ElementCells(kv, off) == NameHeader(kv) + NameCells(name)
            && ElementCells(OnDisk(kv), off) == NameHeader(kv) + NameCells(NameOnDisk(name))
            && ElementSize(OnDisk(kv)) == ElementSize(kv)
  {
    NameFilled(kv.value.name);
    hide NameCells, NameOnDisk, Written, Filled;
  }

  lemma PositionsAreBytes(kv: KV<Value>, off: int)
    requires kv.value.Positions?
    ensures OnDisk(kv) == kv && Filled(ElementCells(kv, off)) == ElementCells(kv, off)
  {
    FilledBytes(ElementCells(kv, off));
    hide Filled;
  }

  function PostingsFront(kv: KV<Value>): seq<Byte>
    requires kv.value.Postings?
  {
    var n := |Written(kv.value.word)|;
    WordPostingsHeader(n, TableSize(kv.value.table)).ToDisk() + Written(kv.value.word)
  }

  lemma PostingsCells(kv: KV<Value>, off: int)
    requires kv.value.Postings?
    ensures var word, table := kv.value.word, kv.value.table;
            && ElementCells(kv, off) == PostingsFront(kv) + TableCells(table, off + 6 + |Written(word)|)
            && ElementSize(kv) == 6 + |Written(word)| + TableSize(table)
  {
    hide Written, TableSize, TableCells, BigEndian;
  }

  lemma SameFront(kv: KV<Value>)
    requires kv.value.Postings? && TableSize(TableOnDisk(kv.value.table)) == TableSize(kv.value.table)
    ensures var disk := OnDisk(kv);
            && disk == KV(kv.key, Postings(Written(kv.value.word), TableOnDisk(kv.value.table)))
            && Written(Written(kv.value.word)) == Written(kv.value.word) && PostingsFront(disk) == PostingsFront(kv)
  {
    WrittenAll(kv.value.word);
    hide Written, TableSize, TableOnDisk, BigEndian;
  }

  lemma PostingsElement(kv: KV<Value>, off: int)
    requires kv.value.Postings? && TableSize(TableOnDisk(kv.value.table)) == TableSize(kv.value.table)
    ensures var word, table, disk := kv.value.word, kv.value.table, TableOnDisk(kv.value.table);
            var start := off + 6 + |Written(word)|;
            && ElementCells(kv, off) == PostingsFront(kv) + TableCells(table, start)
            && ElementCells(OnDisk(kv), off) == PostingsFront(kv) + TableCells(disk, start)
            && ElementSize(OnDisk(kv)) == ElementSize(kv)
  {
    hide *;
    SameFront(kv);
    PostingsCells(kv, off);
    PostingsCells(OnDisk(kv), off);
  }

  lemma NamelessInside(kv: KV<Value>)
    requires kv.value.Postings?
    ensures Nameless(kv) ==> NamelessTable(kv.value.table)
  {
    hide NamelessTable;
  }

  lemma ElementsLast(kvs: seq<KV<Value>>, pos: int)
    requires kvs != []
    ensures |Init(kvs)| < |kvs| && Init(BucketOnDisk(kvs)) == BucketOnDisk(Init(kvs))
    ensures BucketOnDisk(kvs) != [] && Last(BucketOnDisk(kvs)) == OnDisk(Last(kvs))
    ensures ElementsSize(kvs) == ElementsSize(Init(kvs)) + ElementSize(Last(kvs))
    ensures PositionRecords(kvs, pos) == PositionRecords(Init(kvs), pos) + BigEndian(pos + ElementsSize(Init(kvs)), 4)
    ensures ElementsCells(kvs, pos)
         == ElementsCells(Init(kvs), pos) + ElementCells(Last(kvs), pos + ElementsSize(Init(kvs)))
    ensures NamelessBucket(kvs) ==> NamelessBucket(Init(kvs)) && Nameless(Last(kvs))
  {
    hide OnDisk, ElementSize, ElementCells, BigEndian, Nameless;
    assert Init(BucketOnDisk(kvs)) == BucketOnDisk(Init(kvs));
  }

  lemma NoElements(pos: int)
    ensures BucketOnDisk([]) == [] && ElementsSize([]) == 0
    ensures PositionRecords([], pos) == [] && ElementsCells([], pos) == [] && Filled([]) == []
  {
  }

  lemma {:induction false} ElementsFilled(kvs: seq<KV<Value>>, pos: int)
    ensures ElementsSize(BucketOnDisk(kvs)) == ElementsSize(kvs)
    ensures PositionRecords(BucketOnDisk(kvs), pos) == PositionRecords(kvs, pos)
    ensures ElementsCells(BucketOnDisk(kvs), pos) == Filled(ElementsCells(kvs, pos))
    ensures NamelessBucket(kvs) ==> Filled(ElementsCells(kvs, pos)) == ElementsCells(kvs, pos)
    decreases kvs, 1
  {
    hide *;
    if kvs == [] {
      NoElements(pos);
    } else {
      var before, last := kvs[..|kvs| - 1], kvs[|kvs| - 1];
      ElementsLast(kvs, pos);
      ElementsLast(BucketOnDisk(kvs), pos);
      InitLast(kvs);
      ElementsFilled(before, pos);
      ElementFilled(last, pos + ElementsSize(before));
      FilledConcat(ElementsCells(before, pos), ElementCells(last, pos + ElementsSize(before)));
    }
  }

  lemma {:induction false} BucketFilled(c: Chain<Value>, off: int)
    ensures BucketSize(Chain(BucketOnDisk(c.kvs))) == BucketSize(c)
    ensures BucketCells(Chain(BucketOnDisk(c.kvs)), off) == Filled(BucketCells(c, off))
    ensures NamelessBucket(c.kvs) ==> Filled(BucketCells(c, off)) == BucketCells(c, off)
    decreases c, 0
  {
    hide ElementsSize, ElementsCells, PositionRecords, BucketOnDisk, Filled, NamelessBucket;
    var pos := off + 4 * |c.kvs|;
    ElementsFilled(c.kvs, pos);
    FilledConcat(PositionRecords(c.kvs, pos), ElementsCells(c.kvs, pos));
    FilledBytes(PositionRecords(c.kvs, pos));
  }

  lemma BucketsLast(cs: Table<Value>, pos: int)
    requires cs != []
    ensures |Init(cs)| < |cs| && Init(TableOnDisk(cs)) == TableOnDisk(Init(cs))
    ensures TableOnDisk(cs) != [] && Last(TableOnDisk(cs)) == Chain(BucketOnDisk(Last(cs).kvs))
    ensures |BucketOnDisk(Last(cs).kvs)| == |Last(cs).kvs|
    ensures BucketsSize(cs) == BucketsSize(Init(cs)) + BucketSize(Last(cs))
    ensures BucketRecords(cs, pos)
         == BucketRecords(Init(cs), pos) + BucketRecord(|Last(cs).kvs|, pos + BucketsSize(Init(cs))).ToDisk()
    ensures BucketsCells(cs, pos) == BucketsCells(Init(cs), pos) + BucketCells(Last(cs), pos + BucketsSize(Init(cs)))
    ensures NamelessTable(cs) ==> NamelessTable(Init(cs)) && NamelessBucket(Last(cs).kvs)
  {
    hide BucketOnDisk, BucketSize, BucketCells, BigEndian, NamelessBucket, BucketRecord.ToDisk;
    assert Init(TableOnDisk(cs)) == TableOnDisk(Init(cs));
  }

  lemma NoBuckets(pos: int)
    ensures TableOnDisk([]) == [] && BucketsSize([]) == 0
    ensures BucketRecords([], pos) == [] && BucketsCells([], pos) == [] && Filled([]) == []
  {
  }

  lemma {:induction false} BucketsFilled(cs: Table<Value>, pos: int)
    ensures BucketsSize(TableOnDisk(cs)) == BucketsSize(cs)
    ensures BucketRecords(TableOnDisk(cs), pos) == BucketRecords(cs, pos)
    ensures BucketsCells(TableOnDisk(cs), pos) == Filled(BucketsCells(cs, pos))
    ensures NamelessTable(cs) ==> Filled(BucketsCells(cs, pos)) == BucketsCells(cs, pos)
    decreases cs, 1
  {
    hide *;
    if cs == [] {
      NoBuckets(pos);
    } else {
      var before, last := cs[..|cs| - 1], cs[|cs| - 1];
      BucketsLast(cs, pos);
      BucketsLast(TableOnDisk(cs), pos);
      InitLast(cs);
      BucketsFilled(before, pos);
      BucketFilled(last, pos + BucketsSize(before));
      FilledConcat(BucketsCells(before, pos), BucketCells(last, pos + BucketsSize(before)));
    }
  }

  lemma InitLast<T>(s: seq<T>)
    requires s != []
    ensures s[..|s| - 1] == Init(s) && s[|s| - 1] == Last(s)
  {
  }

  // The table on disk takes the same room, and with zeros in the holes that the writer
  // leaves, the layout of the table is the layout of the table on disk.
  lemma {:induction false} TableFilled(t: Table<Value>, off: int)
    ensures TableSize(TableOnDisk(t)) == TableSize(t)
    ensures TableCells(TableOnDisk(t), off) == Filled(TableCells(t, off))
    ensures NamelessTable(t) ==> Filled(TableCells(t, off)) == TableCells(t, off)
    decreases t, 2
  {
    hide BucketsSize, BucketsCells, BucketRecords, TableOnDisk, Filled, BigEndian, NamelessTable;
    var start := BucketsStart(t, off);
    BucketsFilled(t, start);
    var front := BigEndian(|t|, 4) + BucketRecords(t, start);
    FilledConcat(front, BucketsCells(t, start));
    FilledBytes(front);
  }

  // ----- what can be read again -----

  lemma {:induction false} ElementOnDisk(kv: KV<Value>)
    ensures Encodable(OnDisk(kv)) && (HasEmptyWord(OnDisk(kv)) <==> HasEmptyWord(kv))
    ensures OnDisk(kv) == kv <==> Encodable(kv)
    ensures Encodable(kv) ==> Fits(kv)
    decreases kv, 0
  {
    hide NameOnDisk, Written, EncodableTable, TableHasEmptyWord, FitsTable, TableOnDisk, Ascii;
    match kv.value
    case DocName(name) =>
      NameOnDiskFits(name);
      NameSurvivesIff(name);
      Length16Bound(name);
    case Positions(_) =>
    case Postings(word, table) =>
      WrittenAll(word);
      Length16Bound(word);
      OnDiskEncodable(table);
  }

  lemma {:induction false} ChainOnDisk(kvs: seq<KV<Value>>)
    ensures EncodableBucket(BucketOnDisk(kvs)) && (BucketHasEmptyWord(BucketOnDisk(kvs)) <==> BucketHasEmptyWord(kvs))
    ensures BucketOnDisk(kvs) == kvs <==> EncodableBucket(kvs)
    ensures EncodableBucket(kvs) ==> FitsBucket(kvs)
    decreases kvs, 1
  {
    var r := BucketOnDisk(kvs);
    hide OnDisk, Encodable, HasEmptyWord, Fits, BucketOnDisk;
    forall i | 0 <= i < |kvs|
      ensures Encodable(r[i]) && (HasEmptyWord(r[i]) <==> HasEmptyWord(kvs[i]))
              && (r[i] == kvs[i] <==> Encodable(kvs[i]))
      ensures Encodable(kvs[i]) ==> Fits(kvs[i])
    {
      ElementOnDisk(kvs[i]);
    }
  }

  // The table on disk can always be read again, and it is the table itself exactly when
  // the table can.
  lemma {:induction false} OnDiskEncodable(t: Table<Value>)
    ensures EncodableTable(TableOnDisk(t)) && (TableHasEmptyWord(TableOnDisk(t)) <==> TableHasEmptyWord(t))
    ensures TableOnDisk(t) == t <==> EncodableTable(t)
    ensures EncodableTable(t) ==> FitsTable(t)
    decreases t, 2
  {
    var r := TableOnDisk(t);
    hide BucketOnDisk, EncodableBucket, BucketHasEmptyWord, FitsBucket, TableOnDisk;
    forall i | 0 <= i < |t|
      ensures EncodableBucket(r[i].kvs) && (BucketHasEmptyWord(r[i].kvs) <==> BucketHasEmptyWord(t[i].kvs))
      ensures r[i] == t[i] <==> EncodableBucket(t[i].kvs)
      ensures EncodableBucket(t[i].kvs) ==> FitsBucket(t[i].kvs)
    {
      ChainOnDisk(t[i].kvs);
    }
  }
}
