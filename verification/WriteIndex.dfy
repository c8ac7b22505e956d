/**
 The index writer (hw3/WriteIndex.cc).  Every method seeks and writes as the
 source does; its contract says the net effect is one contiguous copy of the
 layout of module DiskLayout, every byte of it written exactly once.
 */
module WriteIndex {
  import opened Common
  import opened LayoutStructs
  import opened IndexFile
  import opened DiskLayout
  import opened LossyNames
  import opened Crc

  const FAILED_WRITE := -1

  // The write_element_fn the tables are written with, picked by the payload.
  method WriteElement(f: File, offset: int, kv: KV<Value>) returns (r: int)
    requires 0 <= offset && offset + ElementSize(kv) <= MAX_INT32 && Fits(kv)
    modifies f
    ensures ContinuesFrom(old(f.Snapshot()), f.Snapshot(), offset)
    ensures r == FAILED_WRITE <==> HasEmptyWord(kv)
    ensures r != FAILED_WRITE ==>
            r == ElementSize(kv) && Wrote(old(f.Snapshot()), f.Snapshot(), offset, ElementCells(kv, offset))
    decreases kv, 1
  {
    hide *;
    match kv.value
    case DocName(_) =>
      FittingDocName(kv, offset);
      r := WriteDocidToDocname(f, offset, kv);
    case Positions(_) =>
      NotPostings(kv);
      r := WriteDocIDToPositionList(f, offset, kv);
    case Postings(_, _) =>
      r := WriteWordToPostings(f, offset, kv);
  }

  lemma FittingDocName(kv: KV<Value>, off: int)
    requires kv.value.DocName? && Fits(kv)
    ensures var name := kv.value.name;
            && Length16(name) == |Written(name)|
            && DoctableElementHeader(kv.key, Length16(name)).ToDisk() + NameCells(name) == ElementCells(kv, off)
            && FAILED_WRITE < 0 && ElementSize(kv) == 10 + |Written(name)| && !HasEmptyWord(kv)
  {
  }

  lemma NotPostings(kv: KV<Value>)
    requires !kv.value.Postings?
    ensures !HasEmptyWord(kv) && FAILED_WRITE < 0 <= ElementSize(kv)
  {
  }

  // A name of any length and with any characters.
  method WriteDocidToDocname(f: File, offset: int, kv: KV<Value>) returns (r: int)
    requires kv.value.DocName? && 0 <= offset && offset + 10 + |Written(kv.value.name)| <= MAX_INT32
    modifies f
    ensures ContinuesFrom(old(f.Snapshot()), f.Snapshot(), offset)
    ensures var name := kv.value.name;
            && r == 10 + Length16(name)
            && Wrote(old(f.Snapshot()), f.Snapshot(), offset,
                     DoctableElementHeader(kv.key, Length16(name)).ToDisk() + NameCells(name))
  {
    hide *;
    var fileName := kv.value.name;
    var fileNameBytes := Length16(fileName);
    var header := DoctableElementHeader(kv.key, fileNameBytes).ToDisk();
    var ok := f.Seek(offset);
    ok := f.Write(header);
    ghost var d := old(f.Snapshot());
    ghost var name := Written(fileName);
    var i := 0;
    Length16Bound(fileName);
    AsciiOnlyEmpty(name);
    assert header + [] == header;
    while i < fileNameBytes
      invariant 0 <= i && (i <= fileNameBytes || i == 0)
      invariant ContinuesFrom(old(f.Snapshot()), f.Snapshot(), offset)
      invariant f.pos == offset + |header + AsciiOnly(name[..i])|
      invariant Wrote(d, f.Snapshot(), offset, header + AsciiOnly(name[..i]))
    {
      assert name[i] == fileName[i];
      WriteIfAscii(f, fileName, i, name, d, offset, header);
      i := i + 1;
    }
    assert name[..i] == name;
    SkippedAreHoles(d, f.Snapshot(), offset, header, fileName);
    r := 10 + fileNameBytes;
  }

  // One character of a name, skipped unless isascii() accepts it.
  method WriteIfAscii(f: File, fileName: seq<Byte>, i: nat, ghost name: seq<Byte>, ghost d: Disk, ghost offset: nat,
                      ghost header: seq<Byte>)
    requires i < |name| <= |fileName| && fileName[i] == name[i] && ContinuesFrom(d, f.Snapshot(), offset)
    requires f.pos == offset + |header + AsciiOnly(name[..i])|
    requires Wrote(d, f.Snapshot(), offset, header + AsciiOnly(name[..i]))
    modifies f
    ensures ContinuesFrom(d, f.Snapshot(), offset)
    ensures f.pos == offset + |header + AsciiOnly(name[..i + 1])|
    ensures Wrote(d, f.Snapshot(), offset, header + AsciiOnly(name[..i + 1]))
  {
    hide *;
    AsciiOnlyNext(name, i);
    ghost var done, d1, d1pos := header + AsciiOnly(name[..i]), f.Snapshot(), f.pos;
    if fileName[i] < 0x80 {
      var ok := f.Write([fileName[i]]);
      WroteThen(d, d1, f.Snapshot(), offset, done, [fileName[i]]);
      ContinuesTrans(d, d1, f.Snapshot(), offset, d1pos);
      assert done + [fileName[i]] == header + (AsciiOnly(name[..i]) + [fileName[i]]);
    }
  }

  // The characters that are skipped leave a hole at the end.
  lemma SkippedAreHoles(d0: Disk, d1: Disk, offset: nat, header: seq<Byte>, name: seq<Byte>)
    requires Wrote(d0, d1, offset, header + AsciiOnly(Written(name)))
    ensures Wrote(d0, d1, offset, header + NameCells(name))
  {
    hide Wrote, AsciiOnly, Written;
    var ascii := AsciiOnly(Written(name));
    var holes := Holes(|Written(name)| - |ascii|);
    WroteHoles(d0, d1, offset, header + ascii, |holes|);
    assert header + ascii + holes == header + NameCells(name);
  }

  lemma AsciiOnlyEmpty(s: seq<Byte>)
    ensures AsciiOnly(s[..0]) == []
  {
  }

  lemma AsciiOnlyNext(s: seq<Byte>, i: nat)
    requires i < |s|
    ensures AsciiOnly(s[..i + 1]) == if s[i] < 0x80 then AsciiOnly(s[..i]) + [s[i]] else AsciiOnly(s[..i])
  {
    PrefixSnoc(s, i);
  }

  method WriteDocIDToPositionList(f: File, offset: int, kv: KV<Value>) returns (r: int)
    requires kv.value.Positions? && 0 <= offset && offset + ElementSize(kv) <= MAX_INT32
    modifies f
    ensures ContinuesFrom(old(f.Snapshot()), f.Snapshot(), offset)
    ensures r == ElementSize(kv) && Wrote(old(f.Snapshot()), f.Snapshot(), offset, ElementCells(kv, offset))
  {
    hide *;
    var positions := kv.value.positions;
    var header := DocIDElementHeader(kv.key, |positions|).ToDisk();
    ghost var d := f.Snapshot();
    var ok := f.Seek(offset);
    ok := f.Write(header);
    PositionsElement(kv, offset);
    for i := 0 to |positions|
      invariant ContinuesFrom(old(f.Snapshot()), f.Snapshot(), offset)
      invariant f.pos == offset + 12 + 4 * i
      invariant Wrote(d, f.Snapshot(), offset, header + PositionsBytes(positions[..i]))
    {
      ghost var done, d1, p1 := header + PositionsBytes(positions[..i]), f.Snapshot(), f.pos;
      var position := BigEndian(positions[i], 4);
      ok := f.Write(position);
      WroteThen(d, d1, f.Snapshot(), offset, done, position);
      ContinuesTrans(d, d1, f.Snapshot(), offset, p1);
      PositionsBytesNext(positions, i, header);
    }
    r := 12 + 4 * |positions|;
  }

  lemma PositionsElement(kv: KV<Value>, off: int)
    requires kv.value.Positions?
    ensures var ps, header := kv.value.positions, DocIDElementHeader(kv.key, |kv.value.positions|).ToDisk();
            && header + PositionsBytes(ps[..0]) == header
            && header + PositionsBytes(ps[..|ps|]) == ElementCells(kv, off)
            && ElementSize(kv) == 12 + 4 * |ps|
  {
    var ps := kv.value.positions;
    assert ps[..|ps|] == ps;
  }

  lemma PositionsBytesNext(ps: seq<Position>, i: nat, header: seq<Byte>)
    requires i < |ps|
    ensures header + PositionsBytes(ps[..i + 1]) == header + PositionsBytes(ps[..i]) + BigEndian(ps[i], 4)
  {
    hide BigEndian;
    PrefixSnoc(ps, i);
  }

  // The nested table is written before the header and the word in front of it.
  method WriteWordToPostings(f: File, offset: int, kv: KV<Value>) returns (r: int)
    requires kv.value.Postings? && 0 <= offset && offset + ElementSize(kv) <= MAX_INT32 && Fits(kv)
    modifies f
    ensures ContinuesFrom(old(f.Snapshot()), f.Snapshot(), offset)
    ensures r == FAILED_WRITE <==> HasEmptyWord(kv)
    ensures r != FAILED_WRITE ==>
              r == ElementSize(kv) && Wrote(old(f.Snapshot()), f.Snapshot(), offset, ElementCells(kv, offset))
    decreases kv, 0
  {
    hide *;
    PostingsElement(kv, offset);
    var word, table := kv.value.word, kv.value.table;
    var wordBytes := Length16(word);
    ghost var d := f.Snapshot();
    var htBytes := WriteHashTable(f, offset + 6 + wordBytes, table);
    ghost var d1 := f.Snapshot();
    ContinuesRefl(d, offset);
    ContinuesTrans(d, d, d1, offset, offset + 6 + wordBytes);
    if htBytes == FAILED_WRITE {
      return FAILED_WRITE;
    }
    ghost var nested := TableCells(table, offset + 6 + wordBytes);
    WroteLater(d, d1, offset, offset + 6 + wordBytes, nested);

    var header := WordPostingsHeader(wordBytes, htBytes).ToDisk();
    var ok := f.Seek(offset);
    ok := f.Write(header);
    ghost var d2 := f.Snapshot();
    ContinuesTrans(d, d1, d2, offset, offset);
    WroteFirst(d, d1, d2, offset, [], offset + 6 + wordBytes, nested, header);
    assert [] + header == header;

    ok := f.Seek(offset + 6);
    ok := f.Write(word[..wordBytes]);
    ContinuesTrans(d, d2, f.Snapshot(), offset, offset + 6);
    if !ok {
      return FAILED_WRITE;
    }
    WroteFirst(d, d2, f.Snapshot(), offset, header, offset + 6 + wordBytes, nested, word[..wordBytes]);
    WroteMerge(d, f.Snapshot(), offset, header + word[..wordBytes], offset + 6 + wordBytes, nested);
    r := 6 + wordBytes + htBytes;
  }

  lemma PostingsElement(kv: KV<Value>, off: int)
    requires kv.value.Postings? && Fits(kv)
    ensures var word, table, n := kv.value.word, kv.value.table, Length16(kv.value.word);
            && 0 <= n <= |word| && ElementSize(kv) == 6 + n + TableSize(table) && 0 <= TableSize(table)
            && FAILED_WRITE < 0
            && FitsTable(table)
            && ElementCells(kv, off) ==
               WordPostingsHeader(n, TableSize(table)).ToDisk() + word[..n] + TableCells(table, off + 6 + n)
            && (HasEmptyWord(kv) <==> word[..n] == [] || TableHasEmptyWord(table))
  {
    Length16Bound(kv.value.word);
  }

  method WriteHTBucketRecord(f: File, offset: int, numElts: int, bucketOffset: int) returns (r: int)
    requires 0 <= offset
    modifies f
    ensures ContinuesFrom(old(f.Snapshot()), f.Snapshot(), offset)
    ensures r == 8
    ensures Wrote(old(f.Snapshot()), f.Snapshot(), offset, BucketRecord(numElts, bucketOffset).ToDisk())
  {
    hide *;
    var record := BucketRecord(numElts, bucketOffset).ToDisk();
    var ok := f.Seek(offset);
    ok := f.Write(record);
    r := 8;
  }

  method WriteHTBucket(f: File, offset: int, li: Chain<Value>) returns (r: int)
    requires 0 <= offset && offset + BucketSize(li) <= MAX_INT32 && FitsBucket(li.kvs)
    modifies f
    ensures ContinuesFrom(old(f.Snapshot()), f.Snapshot(), offset)
    ensures r == FAILED_WRITE <==> BucketHasEmptyWord(li.kvs)
    ensures r != FAILED_WRITE ==>
              r == BucketSize(li) && Wrote(old(f.Snapshot()), f.Snapshot(), offset, BucketCells(li, offset))
    decreases li, 1
  {
    hide *;
    var kvs := li.kvs;
    var numElts := |kvs|;
    ghost var d := f.Snapshot();
    BucketEnds(li, offset);
    ContinuesRefl(d, offset);
    WroteNothing(d, offset);
    if numElts == 0 {
      return 0;
    }
    var recordPos := offset;
    var elementPos := offset + 4 * numElts;
    ghost var start := elementPos;
    WroteOne(d, d, offset, [], start);
    for i := 0 to numElts
      invariant ContinuesFrom(d, f.Snapshot(), offset)
      invariant recordPos == offset + 4 * i
      invariant elementPos == start + ElementsSize(kvs[..i])
      invariant !BucketHasEmptyWord(kvs[..i])
      invariant WroteTwo(d, f.Snapshot(), offset, PositionRecords(kvs[..i], start), start,
                         ElementsCells(kvs[..i], start))
    {
      BucketNext(kvs, start, i);
      ghost var records, elements := PositionRecords(kvs[..i], start), ElementsCells(kvs[..i], start);
      ghost var d1 := f.Snapshot();
      var record := BigEndian(elementPos, 4);
      var ok := f.Seek(recordPos);
      ok := f.Write(record);
      ghost var d2 := f.Snapshot();
      ContinuesTrans(d, d1, d2, offset, recordPos);
      WroteFirst(d, d1, d2, offset, records, start, elements, record);

      var elementSize := WriteElement(f, elementPos, kvs[i]);
      ContinuesTrans(d, d2, f.Snapshot(), offset, elementPos);
      if elementSize == FAILED_WRITE {
        return FAILED_WRITE;
      }
      WroteSecond(d, d2, f.Snapshot(), offset, records + record, start, elements, ElementCells(kvs[i], elementPos));
      recordPos := recordPos + 4;
      elementPos := elementPos + elementSize;
    }
    WroteMerge(d, f.Snapshot(), offset, PositionRecords(kvs, start), start, ElementsCells(kvs, start));
    r := elementPos - offset;
  }

  lemma BucketEnds(li: Chain<Value>, off: int)
    ensures var kvs, start := li.kvs, off + 4 * |li.kvs|;
            && FAILED_WRITE < 0 && kvs[..|kvs|] == kvs
            && BucketSize(li) == 4 * |kvs| + ElementsSize(kvs)
            && BucketCells(li, off) == PositionRecords(kvs, start) + ElementsCells(kvs, start)
            && ElementsSize(kvs[..0]) == 0 && PositionRecords(kvs[..0], start) == []
            && ElementsCells(kvs[..0], start) == []
            && !BucketHasEmptyWord(kvs[..0])
            && (kvs == [] ==> BucketSize(li) == 0 && BucketCells(li, off) == [] && !BucketHasEmptyWord(kvs))
  {
  }

  lemma BucketSnoc(kvs: seq<KV<Value>>, start: int, i: nat)
    requires i < |kvs|
    ensures var next := kvs[..i + 1];
            && ElementsSize(next) == ElementsSize(kvs[..i]) + ElementSize(kvs[i])
            && 0 <= ElementSize(kvs[i]) && 0 <= ElementsSize(kvs[..i])
            && PositionRecords(next, start)
               == PositionRecords(kvs[..i], start) + BigEndian(start + ElementsSize(kvs[..i]), 4)
            && ElementsCells(next, start)
               == ElementsCells(kvs[..i], start) + ElementCells(kvs[i], start + ElementsSize(kvs[..i]))
            && (FitsBucket(kvs) ==> Fits(kvs[i]))
  {
    hide ElementSize, ElementCells, BigEndian, Fits;
    PrefixSnoc(kvs, i);
  }

  lemma BucketNext(kvs: seq<KV<Value>>, start: int, i: nat)
    requires i < |kvs| && FitsBucket(kvs)
    ensures var next := kvs[..i + 1];
            && Fits(kvs[i])
            && ElementsSize(next) == ElementsSize(kvs[..i]) + ElementSize(kvs[i]) && 0 <= ElementSize(kvs[i])
            && 0 <= ElementsSize(kvs[..i]) && ElementsSize(next) <= ElementsSize(kvs)
            && PositionRecords(next, start)
               == PositionRecords(kvs[..i], start) + BigEndian(start + ElementsSize(kvs[..i]), 4)
            && ElementsCells(next, start)
               == ElementsCells(kvs[..i], start) + ElementCells(kvs[i], start + ElementsSize(kvs[..i]))
            && (HasEmptyWord(kvs[i]) ==> BucketHasEmptyWord(kvs))
            && (BucketHasEmptyWord(next) ==> BucketHasEmptyWord(kvs[..i]) || HasEmptyWord(kvs[i]))
  {
    hide *;
    BucketSnoc(kvs, start, i);
    ElementsSizePrefix(kvs, i + 1);
    EmptyWordNext(kvs, i);
  }

  lemma EmptyWordNext(kvs: seq<KV<Value>>, i: nat)
    requires i < |kvs|
    ensures HasEmptyWord(kvs[i]) ==> BucketHasEmptyWord(kvs)
    ensures BucketHasEmptyWord(kvs[..i + 1]) ==> BucketHasEmptyWord(kvs[..i]) || HasEmptyWord(kvs[i])
  {
    hide HasEmptyWord;
    if BucketHasEmptyWord(kvs[..i + 1]) {
      var k :| 0 <= k < i + 1 && HasEmptyWord(kvs[..i + 1][k]);
      assert k < i ==> kvs[..i][k] == kvs[..i + 1][k];
    }
  }

  lemma {:induction false} ElementsSizePrefix(kvs: seq<KV<Value>>, i: nat)
    requires i <= |kvs|
    ensures ElementsSize(kvs[..i]) <= ElementsSize(kvs)
  {
    if i == |kvs| {
      assert kvs[..i] == kvs;
    } else {
      ElementsSizePrefix(Init(kvs), i);
      assert Init(kvs)[..i] == kvs[..i];
    }
  }

  lemma {:induction false} BucketsSizePrefix(cs: Table<Value>, i: nat)
    requires i <= |cs|
    ensures BucketsSize(cs[..i]) <= BucketsSize(cs)
  {
    if i == |cs| {
      assert cs[..i] == cs;
    } else {
      BucketsSizePrefix(Init(cs), i);
      assert Init(cs)[..i] == cs[..i];
    }
  }

  method WriteHashTable(f: File, offset: int, ht: Table<Value>) returns (r: int)
    requires 0 <= offset && offset + TableSize(ht) <= MAX_INT32 && FitsTable(ht)
    modifies f
    ensures ContinuesFrom(old(f.Snapshot()), f.Snapshot(), offset)
    ensures r == FAILED_WRITE <==> TableHasEmptyWord(ht)
    ensures r != FAILED_WRITE ==>
              r == TableSize(ht) && Wrote(old(f.Snapshot()), f.Snapshot(), offset, TableCells(ht, offset))
    decreases ht, 2
  {
    hide *;
    ghost var d := f.Snapshot();
    var header := BigEndian(|ht|, 4);
    var ok := f.Seek(offset);
    ok := f.Write(header);

    var recordPos := offset + 4;
    var bucketPos := offset + 4 + 8 * |ht|;
    ghost var start := bucketPos;
    TableEnds(ht, offset);
    WroteOne(d, f.Snapshot(), offset, header, start);
    for i := 0 to |ht|
      invariant ContinuesFrom(d, f.Snapshot(), offset)
      invariant bucketPos == start + BucketsSize(ht[..i])
      invariant !TableHasEmptyWord(ht[..i])
      invariant WroteTwo(d, f.Snapshot(), offset, header + BucketRecords(ht[..i], start), start,
                         BucketsCells(ht[..i], start))
    {
      TableNext(ht, start, i);
      ghost var records, buckets := header + BucketRecords(ht[..i], start), BucketsCells(ht[..i], start);
      ghost var record := BucketRecord(|ht[i].kvs|, bucketPos).ToDisk();
      ghost var d1 := f.Snapshot();
      var _ := WriteHTBucketRecord(f, recordPos + 8 * i, |ht[i].kvs|, bucketPos);
      ghost var d2 := f.Snapshot();
      ContinuesTrans(d, d1, d2, offset, recordPos + 8 * i);
      WroteFirst(d, d1, d2, offset, records, start, buckets, record);
      assert records + record == header + (BucketRecords(ht[..i], start) + record);

      var res := WriteHTBucket(f, bucketPos, ht[i]);
      ContinuesTrans(d, d2, f.Snapshot(), offset, bucketPos);
      if res == FAILED_WRITE {
        return FAILED_WRITE;
      }
      WroteSecond(d, d2, f.Snapshot(), offset, records + record, start, buckets, BucketCells(ht[i], bucketPos));
      bucketPos := bucketPos + res;
    }
    WroteMerge(d, f.Snapshot(), offset, header + BucketRecords(ht, start), start, BucketsCells(ht, start));
    r := bucketPos - offset;
  }

  lemma TableEnds(t: Table<Value>, off: int)
    ensures var header, start := BigEndian(|t|, 4), off + 4 + 8 * |t|;
            && FAILED_WRITE < 0 && t[..|t|] == t
            && TableSize(t) == 4 + 8 * |t| + BucketsSize(t)
            && TableCells(t, off) == header + BucketRecords(t, start) + BucketsCells(t, start)
            && BucketsSize(t[..0]) == 0 && header + BucketRecords(t[..0], start) == header
            && BucketsCells(t[..0], start) == []
            && !TableHasEmptyWord(t[..0])
  {
    hide BigEndian;
    NoBucketsYet(t, off + 4 + 8 * |t|);
    hide BucketsSize, BucketRecords, BucketsCells, TableHasEmptyWord;
  }

  lemma NoBucketsYet(t: Table<Value>, start: int)
    ensures t[..0] == [] && BucketsSize(t[..0]) == 0 && BucketRecords(t[..0], start) == []
    ensures BucketsCells(t[..0], start) == [] && !TableHasEmptyWord(t[..0])
  {
  }

  lemma TableNext(t: Table<Value>, start: int, i: nat)
    requires i < |t| && FitsTable(t)
    ensures var next := t[..i + 1];
            && FitsBucket(t[i].kvs)
            && BucketsSize(next) == BucketsSize(t[..i]) + BucketSize(t[i]) && 0 <= BucketSize(t[i])
            && 0 <= BucketsSize(t[..i]) && BucketsSize(next) <= BucketsSize(t)
            && BucketRecords(next, start)
               == BucketRecords(t[..i], start) + BucketRecord(|t[i].kvs|, start + BucketsSize(t[..i])).ToDisk()
            && BucketsCells(next, start) == BucketsCells(t[..i], start) + BucketCells(t[i], start + BucketsSize(t[..i]))
            && (BucketHasEmptyWord(t[i].kvs) ==> TableHasEmptyWord(t))
            && (TableHasEmptyWord(next) ==> TableHasEmptyWord(t[..i]) || BucketHasEmptyWord(t[i].kvs))
  {
    hide BucketSize, BucketCells, BucketHasEmptyWord, TableHasEmptyWord, FitsBucket, BigEndian;
    PrefixSnoc(t, i);
    BucketsSizePrefix(t, i + 1);
    EmptyBucketWordNext(t, i);
  }

  lemma EmptyBucketWordNext(t: Table<Value>, i: nat)
    requires i < |t|
    ensures BucketHasEmptyWord(t[i].kvs) ==> TableHasEmptyWord(t)
    ensures TableHasEmptyWord(t[..i + 1]) ==> TableHasEmptyWord(t[..i]) || BucketHasEmptyWord(t[i].kvs)
  {
    hide BucketHasEmptyWord;
    if TableHasEmptyWord(t[..i + 1]) {
      var k :| 0 <= k < i + 1 && BucketHasEmptyWord(t[..i + 1][k].kvs);
      assert k < i ==> t[..i][k] == t[..i + 1][k];
    }
  }

  // ----- the whole file -----

  const MAGIC_NUMBER: int := 0xCAFE_F00D
  const HEADER_SIZE: int := 16
  const READBUFSIZE: nat := 128

  // What the writer writes behind the header.
  function BodyCells(dt: Table<Value>, mi: Table<Value>): (cs: seq<Cell>)
    ensures |cs| == TableSize(dt) + TableSize(mi)
  {
    TableCells(dt, HEADER_SIZE) + TableCells(mi, HEADER_SIZE + TableSize(dt))
  }

  // And what the file holds there in the end.
  function TablesBytes(dt: Table<Value>, mi: Table<Value>): (bs: seq<Byte>)
    ensures |bs| == TableSize(dt) + TableSize(mi)
  {
    Filled(BodyCells(dt, mi))
  }

  function HeaderFor(body: seq<Byte>, dtBytes: int, miBytes: int): IndexFileHeader
  {
    IndexFileHeader(MAGIC_NUMBER, ToNat(Crc32Of(body)), dtBytes, miBytes)
  }

  // A finished index file.
  function IndexBytes(dt: Table<Value>, mi: Table<Value>): seq<Byte>
  {
    HeaderFor(TablesBytes(dt, mi), TableSize(dt), TableSize(mi)).ToDisk() + TablesBytes(dt, mi)
  }

  // Checksums everything after the header, then writes the header.
  method WriteHeader(f: File, doctableBytes: int, memidxBytes: int) returns (r: int)
    requires |f.bytes| >= HEADER_SIZE
    modifies f
    ensures r == HEADER_SIZE
    ensures var header := HeaderFor(old(f.bytes)[16..], doctableBytes, memidxBytes).ToDisk();
            && f.log == old(f.log) + [WriteOp(0, header)]
            && f.bytes == Patch(old(f.bytes), 0, header)
            && ContinuesFrom(old(f.Snapshot()), f.Snapshot(), 0)
  {
    hide *;
    HeaderSizeValue();
    var ok := f.Seek(16);
    var checksum := ChecksumRest(f);
    var header := IndexFileHeader(MAGIC_NUMBER, ToNat(checksum), doctableBytes, memidxBytes).ToDisk();
    HeaderForValue(f.bytes[16..], doctableBytes, memidxBytes);
    ok := f.Seek(0);
    ghost var d := f.Snapshot();
    ok := f.Write(header);
    WroteBytes(d, f.Snapshot(), 0, header);
    r := HEADER_SIZE;
  }

  // The checksum loop of WriteHeader.
  method ChecksumRest(f: File) returns (checksum: Word)
    requires f.pos == 16 <= |f.bytes|
    modifies f`pos
    ensures checksum == Crc32Of(f.bytes[16..])
  {
    hide *;
    ReadBufferSize();
    var crc := new Crc32();
    var size := |f.bytes|;
    var buf := f.ReadUpTo(READBUFSIZE);
    assert f.bytes[16..16] == [];
    while |buf| > 0
      invariant crc.Valid() && !crc.finalized && fresh(crc) && fresh(crc.table)
      invariant 16 <= f.pos - |buf| <= f.pos <= size
      invariant buf == f.bytes[f.pos - |buf|..f.pos]
      invariant buf == [] ==> f.pos == size
      invariant crc.folded == f.bytes[16..f.pos - |buf|]
      decreases size - (f.pos - |buf|)
    {
      FoldAll(crc, buf);
      SliceConcat(f.bytes, 16, f.pos - |buf|, f.pos);
      buf := f.ReadUpTo(READBUFSIZE);
    }
    checksum := crc.GetFinalCRC();
    assert f.bytes[16..size] == f.bytes[16..];
  }

  lemma SliceConcat(s: seq<Byte>, i: nat, j: nat, k: nat)
    requires i <= j <= k <= |s|
    ensures s[i..j] + s[j..k] == s[i..k]
  {
  }

  lemma ReadBufferSize()
    ensures READBUFSIZE == 128
  {
  }

  lemma HeaderSizeValue()
    ensures HEADER_SIZE == 16
  {
  }

  lemma HeaderForValue(body: seq<Byte>, dtBytes: int, miBytes: int)
    ensures HeaderFor(body, dtBytes, miBytes) == IndexFileHeader(MAGIC_NUMBER, ToNat(Crc32Of(body)), dtBytes, miBytes)
  {
  }

  // The header is the last write; every other write is after the header.
  ghost predicate CommitsLast(log: seq<WriteOp>, header: seq<Byte>)
  {
    && log != [] && Last(log) == WriteOp(0, header)
    && forall k :: 0 <= k < |log| - 1 ==> HEADER_SIZE <= log[k].off
  }

  lemma BodyWritten(d: Disk, cells: seq<Cell>)
    requires cells != [] && !IsHole(Last(cells))
    requires Wrote(Disk([], []), d, 16, cells) && ContinuesFrom(Disk([], []), d, 16)
    ensures d.bytes == Zeros(16) + Filled(cells) && d.bytes[16..] == Filled(cells)
    ensures d.bytes == Replay([], d.log) && forall k :: 0 <= k < |d.log| ==> 16 <= d.log[k].off
  {
    PatchEnd([], 16, cells);
    hide Patch, Filled;
    assert [] + Zeros(16) == Zeros(16);
    assert d.log[0..] == d.log;
  }

  lemma HeaderWritten(log: seq<WriteOp>, header: seq<Byte>, body: seq<Byte>, bytes: seq<Byte>)
    requires |header| == 16 && forall k :: 0 <= k < |log| ==> 16 <= log[k].off
    requires Replay([], log) == Zeros(16) + body && bytes == Patch(Zeros(16) + body, 0, header)
    ensures bytes == header + body
    ensures CommitsLast(log + [WriteOp(0, header)], header)
    ensures Replay([], log + [WriteOp(0, header)]) == bytes
  {
    hide *;
    PatchFront(header, body);
    CommitsLastAt(log, header);
    ReplaySnoc(log, WriteOp(0, header));
  }

  lemma CommitsLastAt(log: seq<WriteOp>, header: seq<Byte>)
    requires forall k :: 0 <= k < |log| ==> 16 <= log[k].off
    ensures CommitsLast(log + [WriteOp(0, header)], header)
  {
  }

  lemma ReplaySnoc(log: seq<WriteOp>, op: WriteOp)
    ensures Replay([], log + [op]) == Patch(Replay([], log), op.off, op.bs)
  {
    hide Patch;
    assert Init(log + [op]) == log;
  }

  lemma PatchFront(header: seq<Byte>, body: seq<Byte>)
    requires |header| == 16
    ensures Patch(Zeros(16) + body, 0, header) == header + body
  {
    NoHoleExtent(header);
    var l, r := Patch(Zeros(16) + body, 0, header), header + body;
    forall i | 0 <= i < |l|
      ensures l[i] == r[i]
    {
      PatchAt(Zeros(16) + body, 0, header, i);
    }
  }

  lemma IndexBytesValue(dt: Table<Value>, mi: Table<Value>)
    ensures var body := TablesBytes(dt, mi);
            && body == Filled(BodyCells(dt, mi)) && body != []
            && BodyCells(dt, mi) == TableCells(dt, 16) + TableCells(mi, 16 + TableSize(dt))
            && |body| == TableSize(dt) + TableSize(mi)
            && IndexBytes(dt, mi) == HeaderFor(body, TableSize(dt), TableSize(mi)).ToDisk() + body
            && FAILED_WRITE < 0 <= TableSize(dt) && 0 <= TableSize(mi) && HEADER_SIZE == 16
  {
  }

  lemma NoHoleAtEnd(dt: Table<Value>, mi: Table<Value>)
    requires NamelessTable(mi)
    ensures BodyCells(dt, mi) != [] && !IsHole(Last(BodyCells(dt, mi)))
  {
    var cells := TableCells(mi, HEADER_SIZE + TableSize(dt));
    TableFilled(mi, HEADER_SIZE + TableSize(dt));
    assert Last(BodyCells(dt, mi)) == Last(cells) == Filled(cells)[|cells| - 1];
  }

  // Writes the tables, then the header.  The file is deleted on failure,
  // which happens exactly when some word is empty.  The returned size counts
  // the header twice.
  method WriteIndex(mi: Table<Value>, dt: Table<Value>) returns (r: int, file: Option<File>)
    requires FitsTable(mi) && NamelessTable(mi) && FitsTable(dt)
    requires HEADER_SIZE + TableSize(dt) + TableSize(mi) + HEADER_SIZE <= MAX_INT32
    ensures file.None? <==> r == FAILED_WRITE
    ensures r == FAILED_WRITE <==> TableHasEmptyWord(dt) || TableHasEmptyWord(mi)
    ensures file.Some? ==>
              && fresh(file.value)
              && file.value.bytes == IndexBytes(dt, mi) == Replay([], file.value.log)
              && r == |IndexBytes(dt, mi)| + HEADER_SIZE
              && CommitsLast(file.value.log, IndexBytes(dt, mi)[..16])
              && WrittenOnce(file.value.log, dt, mi)
  {
    hide *;
    IndexBytesValue(dt, mi);
    NoHoleAtEnd(dt, mi);
    ghost var cells, body := BodyCells(dt, mi), TablesBytes(dt, mi);
    var f := new File.Create();
    ghost var d0 := f.Snapshot();
    var curPos := HEADER_SIZE;
    var dtBytes := WriteHashTable(f, curPos, dt);
    if dtBytes == FAILED_WRITE {
      return FAILED_WRITE, None;
    }
    ghost var d1 := f.Snapshot();
    curPos := curPos + dtBytes;
    var miBytes := WriteHashTable(f, curPos, mi);
    if miBytes == FAILED_WRITE {
      return FAILED_WRITE, None;
    }
    ghost var d2 := f.Snapshot();
    WroteThen(d0, d1, d2, 16, TableCells(dt, 16), TableCells(mi, 16 + dtBytes));
    ContinuesTrans(d0, d1, d2, 16, curPos);
    BodyWritten(d2, cells);
    assert f.bytes[16..] == body;
    curPos := curPos + miBytes;
    var hBytes := WriteHeader(f, dtBytes, miBytes);
    ghost var header := HeaderFor(body, dtBytes, miBytes).ToDisk();
    HeaderWritten(d2.log, header, body, f.bytes);
    EachByteOnce(d0, d2, header, dt, mi);
    assert (header + body)[..16] == header;
    curPos := curPos + hBytes;
    r, file := curPos, Some(f);
  }

  // Every byte of the file is written once, except that the holes are never written;
  // there are none when all names can be read again.
  ghost predicate WrittenOnce(log: seq<WriteOp>, dt: Table<Value>, mi: Table<Value>)
  {
    && (forall i :: 0 <= i < 16 ==> WriteCount(log, i) == 1)
    && (forall i :: 0 <= i < |BodyCells(dt, mi)| ==>
          WriteCount(log, 16 + i) == if IsHole(BodyCells(dt, mi)[i]) then 0 else 1)
    && (EncodableTable(dt) ==> forall i :: 0 <= i < |BodyCells(dt, mi)| ==> !IsHole(BodyCells(dt, mi)[i]))
  }

  lemma EachByteOnce(d0: Disk, d: Disk, header: seq<Byte>, dt: Table<Value>, mi: Table<Value>)
    requires d0 == Disk([], []) && Wrote(d0, d, 16, BodyCells(dt, mi)) && |header| == 16 && NamelessTable(mi)
    ensures WrittenOnce(d.log + [WriteOp(0, header)], dt, mi)
  {
    var log, cells := d.log + [WriteOp(0, header)], BodyCells(dt, mi);
    assert Init(log) == d.log;
    forall i
      ensures WriteCount(log, i) == Touches(i, 16, cells) + Touches(i, 0, header)
    {
      assert WriteCount(d.log, i) == WriteCount(d0.log, i) + Touches(i, 16, cells);
    }
    if EncodableTable(dt) {
      NothingSkipped(dt, mi);
    }
  }

  lemma NothingSkipped(dt: Table<Value>, mi: Table<Value>)
    requires EncodableTable(dt) && NamelessTable(mi)
    ensures forall i :: 0 <= i < |BodyCells(dt, mi)| ==> !IsHole(BodyCells(dt, mi)[i])
  {
    OnDiskEncodable(dt);
    TableFilled(dt, HEADER_SIZE);
    TableFilled(mi, HEADER_SIZE + TableSize(dt));
    var a, b := TableCells(dt, HEADER_SIZE), TableCells(mi, HEADER_SIZE + TableSize(dt));
    hide TableCells, EncodableTable, NamelessTable, TableOnDisk;
    assert forall i :: 0 <= i < |a| ==> !IsHole(Filled(a)[i]);
    assert forall i :: 0 <= i < |b| ==> !IsHole(Filled(b)[i]);
  }

  // The file looks as if the tables on disk had been written.
  lemma IndexOnDisk(dt: Table<Value>, mi: Table<Value>)
    requires NamelessTable(mi)
    ensures TableSize(TableOnDisk(dt)) == TableSize(dt)
    ensures BodyCells(TableOnDisk(dt), mi) == TablesBytes(dt, mi)
    ensures IndexBytes(TableOnDisk(dt), mi) == IndexBytes(dt, mi)
  {
    TableFilled(dt, HEADER_SIZE);
    TableFilled(mi, HEADER_SIZE + TableSize(dt));
    FilledConcat(TableCells(dt, HEADER_SIZE), TableCells(mi, HEADER_SIZE + TableSize(dt)));
    FilledBytes(TablesBytes(dt, mi));
    hide TableCells, TableSize, Filled, TableOnDisk, NamelessTable;
  }
}
