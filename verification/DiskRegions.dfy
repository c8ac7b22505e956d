/**
 Where the parts of a written table lie: if a file holds the bytes of a table,
 then it holds each bucket record, position record and element at the offset
 the records say.
 */
module DiskRegions {
  import opened Common
  import opened LayoutStructs
  import opened IndexFile
  import opened DiskLayout
  import opened LossyNames

  ghost predicate HoldsTable(s: seq<Byte>, off: int, t: Table<Value>)
  {
    && 0 <= off && off + TableSize(t) <= MAX_INT32 && EncodableTable(t) && !TableHasEmptyWord(t)
    && Holds(s, off, TableCells(t, off))
  }

  ghost predicate HoldsElement(s: seq<Byte>, off: int, kv: KV<Value>)
  {
    && 0 <= off && off + ElementSize(kv) <= MAX_INT32 && Encodable(kv) && !HasEmptyWord(kv)
    && Holds(s, off, ElementCells(kv, off))
  }

  // The offset of bucket b of a table at off, and of element j in it.
  function BucketOffset(t: Table<Value>, off: int, b: nat): int
    requires b <= |t|
  {
    BucketsStart(t, off) + BucketsSize(t[..b])
  }

  function ElementAt(t: Table<Value>, off: int, b: nat, j: nat): int
    requires b < |t| && j <= |t[b].kvs|
  {
    BucketOffset(t, off, b) + 4 * |t[b].kvs| + ElementsSize(t[b].kvs[..j])
  }

  lemma SliceOfConcat(a: seq<Cell>, b: seq<Cell>, i: int, j: int)
    ensures 0 <= i <= j <= |a| ==> (a + b)[i..j] == a[i..j]
    ensures (a + b)[|a|..|a| + |b|] == b
  {
  }

  lemma BucketRecordsLast(cs: Table<Value>, pos: int)
    requires cs != []
    ensures BucketRecords(cs, pos)
         == BucketRecords(Init(cs), pos) + BucketRecord(|Last(cs).kvs|, pos + BucketsSize(Init(cs))).ToDisk()
  {
  }

  lemma {:induction false} BucketRecordsSlice(cs: Table<Value>, pos: int, b: nat)
    requires b < |cs|
    ensures BucketRecords(cs, pos)[8 * b..8 * b + 8] == BucketRecord(|cs[b].kvs|, pos + BucketsSize(cs[..b])).ToDisk()
  {
    hide BucketsSize, BigEndian, BucketRecords;
    BucketRecordsLast(cs, pos);
    SliceOfConcat(BucketRecords(Init(cs), pos), BucketRecord(|Last(cs).kvs|, pos + BucketsSize(Init(cs))).ToDisk(),
        8 * b, 8 * b + 8);
    if b == |cs| - 1 {
      assert cs[..b] == Init(cs);
    } else {
      BucketRecordsSlice(Init(cs), pos, b);
      assert Init(cs)[..b] == cs[..b];
    }
  }

  lemma BucketsCellsLast(cs: Table<Value>, pos: int)
    requires cs != []
    ensures BucketsCells(cs, pos) == BucketsCells(Init(cs), pos) + BucketCells(Last(cs), pos + BucketsSize(Init(cs)))
    ensures BucketsSize(cs) == BucketsSize(Init(cs)) + BucketSize(Last(cs))
    ensures 0 <= BucketSize(Last(cs)) && 0 <= BucketsSize(Init(cs))
  {
    hide BucketSize, BucketCells;
  }

  lemma {:induction false} BucketsSlice(cs: Table<Value>, pos: int, b: nat)
    requires b < |cs|
    ensures var o := BucketsSize(cs[..b]);
            && 0 <= o <= o + BucketSize(cs[b]) <= BucketsSize(cs)
            && BucketsCells(cs, pos)[o..o + BucketSize(cs[b])] == BucketCells(cs[b], pos + o)
    decreases |cs|
  {
    hide *;
    var o, n := BucketsSize(cs[..b]), BucketSize(cs[b]);
    BucketsCellsLast(cs, pos);
    SliceOfConcat(BucketsCells(Init(cs), pos), BucketCells(Last(cs), pos + BucketsSize(Init(cs))), o, o + n);
    InitPrefix(cs, b);
    if b < |cs| - 1 {
      BucketsSlice(Init(cs), pos, b);
    }
  }

  lemma InitPrefix<T>(s: seq<T>, i: nat)
    requires i < |s|
    ensures |Init(s)| == |s| - 1
    ensures if i < |s| - 1 then Init(s)[..i] == s[..i] && Init(s)[i] == s[i] else Init(s) == s[..i] && Last(s) == s[i]
  {
  }

  lemma {:induction false} PositionRecordsSlice(kvs: seq<KV<Value>>, pos: int, j: nat)
    requires j < |kvs|
    ensures PositionRecords(kvs, pos)[4 * j..4 * j + 4] == BigEndian(pos + ElementsSize(kvs[..j]), 4)
  {
    hide ElementsSize, BigEndian;
    if j == |kvs| - 1 {
      assert kvs[..j] == Init(kvs);
    } else {
      PositionRecordsSlice(Init(kvs), pos, j);
      assert Init(kvs)[..j] == kvs[..j];
      assert PositionRecords(kvs, pos)[4 * j..4 * j + 4] == PositionRecords(Init(kvs), pos)[4 * j..4 * j + 4];
    }
  }

  lemma ElementsCellsLast(kvs: seq<KV<Value>>, pos: int)
    requires kvs != []
    ensures ElementsCells(kvs, pos)
            == ElementsCells(Init(kvs), pos) + ElementCells(Last(kvs), pos + ElementsSize(Init(kvs)))
    ensures ElementsSize(kvs) == ElementsSize(Init(kvs)) + ElementSize(Last(kvs))
    ensures 0 <= ElementSize(Last(kvs)) && 0 <= ElementsSize(Init(kvs))
  {
    hide ElementSize, ElementCells;
  }

  lemma {:induction false} ElementsSlice(kvs: seq<KV<Value>>, pos: int, j: nat)
    requires j < |kvs|
    ensures var o := ElementsSize(kvs[..j]);
            && 0 <= o <= o + ElementSize(kvs[j]) <= ElementsSize(kvs)
            && ElementsCells(kvs, pos)[o..o + ElementSize(kvs[j])] == ElementCells(kvs[j], pos + o)
    decreases |kvs|
  {
    hide *;
    var o, n := ElementsSize(kvs[..j]), ElementSize(kvs[j]);
    ElementsCellsLast(kvs, pos);
    SliceOfConcat(ElementsCells(Init(kvs), pos), ElementCells(Last(kvs), pos + ElementsSize(Init(kvs))), o, o + n);
    InitPrefix(kvs, j);
    if j < |kvs| - 1 {
      ElementsSlice(Init(kvs), pos, j);
    }
  }

  lemma TableValue(t: Table<Value>, off: int)
    ensures var start := BucketsStart(t, off);
            && TableCells(t, off) == BigEndian(|t|, 4) + BucketRecords(t, start) + BucketsCells(t, start)
            && TableSize(t) == 4 + 8 * |t| + BucketsSize(t)
  {
  }

  lemma HoldsTableIntro(s: seq<Byte>, off: int, t: Table<Value>)
    requires 0 <= off && off + TableSize(t) <= MAX_INT32 && EncodableTable(t) && !TableHasEmptyWord(t)
    requires Holds(s, off, TableCells(t, off))
    ensures HoldsTable(s, off, t)
  {
  }

  lemma HoldsTableCells(s: seq<Byte>, off: int, t: Table<Value>)
    requires HoldsTable(s, off, t)
    ensures Holds(s, off, TableCells(t, off))
  {
  }

  lemma HeldTable(s: seq<Byte>, off: int, t: Table<Value>)
    requires HoldsTable(s, off, t)
    ensures var start := BucketsStart(t, off);
            && Holds(s, off, BigEndian(|t|, 4))
            && Holds(s, off + 4, BucketRecords(t, start)) && Holds(s, start, BucketsCells(t, start))
  {
    hide *;
    OffsetValues(t, off, 0);
    TableValue(t, off);
    HoldsTableCells(s, off, t);
    var start := BucketsStart(t, off);
    var a, b, c := BigEndian(|t|, 4), BucketRecords(t, start), BucketsCells(t, start);
    HoldsConcat(s, off, a + b, c);
    HoldsConcat(s, off, a, b);
  }

  lemma TableLimits(t: Table<Value>, b: nat)
    requires b < |t| && EncodableTable(t) && !TableHasEmptyWord(t)
    ensures EncodableBucket(t[b].kvs) && !BucketHasEmptyWord(t[b].kvs)
  {
  }

  // Bucket b: its record is in place and leads to the bucket.
  lemma HeldBucket(s: seq<Byte>, off: int, t: Table<Value>, b: nat)
    requires HoldsTable(s, off, t) && b < |t|
    ensures var bpos := BucketOffset(t, off, b);
            && Holds(s, off + 4 + 8 * b, BucketRecord(|t[b].kvs|, bpos).ToDisk())
            && Holds(s, bpos, BucketCells(t[b], bpos))
            && 0 <= bpos && bpos + BucketSize(t[b]) <= off + TableSize(t) <= MAX_INT32
  {
    hide *;
    HeldTable(s, off, t);
    TableValue(t, off);
    OffsetValues(t, off, b);
    HoldsTableRange(s, off, t);
    var start, o := BucketsStart(t, off), BucketsSize(t[..b]);
    BucketRecordsSlice(t, start, b);
    BucketsSlice(t, start, b);
    HoldsPart(s, off + 4, BucketRecords(t, start), 8 * b, 8 * b + 8);
    HoldsPart(s, start, BucketsCells(t, start), o, o + BucketSize(t[b]));
  }

  lemma OffsetValues(t: Table<Value>, off: int, b: nat)
    requires b <= |t|
    ensures BucketOffset(t, off, b) == off + 4 + 8 * |t| + BucketsSize(t[..b])
    ensures BucketsStart(t, off) == off + 4 + 8 * |t|
  {
  }

  lemma HoldsTableRange(s: seq<Byte>, off: int, t: Table<Value>)
    requires HoldsTable(s, off, t)
    ensures 0 <= off && off + TableSize(t) <= MAX_INT32 && off + TableSize(t) <= |s|
  {
  }

  // Element j of bucket b: its position record is in place and leads to the element.
  lemma HeldElement(s: seq<Byte>, off: int, t: Table<Value>, b: nat, j: nat)
    requires HoldsTable(s, off, t) && b < |t| && j < |t[b].kvs|
    ensures var epos := ElementAt(t, off, b, j);
            && Holds(s, BucketOffset(t, off, b) + 4 * j, BigEndian(epos, 4))
            && HoldsElement(s, epos, t[b].kvs[j])
            && 0 <= epos <= MAX_INT32
  {
    hide *;
    HeldBucket(s, off, t, b);
    HoldsTableFacts(s, off, t);
    TableLimits(t, b);
    var kvs, bpos := t[b].kvs, BucketOffset(t, off, b);
    var start, o := bpos + 4 * |kvs|, ElementsSize(kvs[..j]);
    BucketValue(t[b], bpos);
    HoldsConcat(s, bpos, PositionRecords(kvs, start), ElementsCells(kvs, start));
    PositionRecordsSlice(kvs, start, j);
    ElementsSlice(kvs, start, j);
    HoldsPart(s, bpos, PositionRecords(kvs, start), 4 * j, 4 * j + 4);
    HoldsPart(s, start, ElementsCells(kvs, start), o, o + ElementSize(kvs[j]));
    ElementLimits(kvs, j);
    ElementAtValue(t, off, b, j);
    HoldsElementIntro(s, start + o, kvs[j]);
  }

  lemma HoldsTableFacts(s: seq<Byte>, off: int, t: Table<Value>)
    requires HoldsTable(s, off, t)
    ensures EncodableTable(t) && !TableHasEmptyWord(t)
  {
  }

  lemma BucketValue(c: Chain<Value>, off: int)
    ensures var start := off + 4 * |c.kvs|;
            && BucketCells(c, off) == PositionRecords(c.kvs, start) + ElementsCells(c.kvs, start)
            && BucketSize(c) == 4 * |c.kvs| + ElementsSize(c.kvs)
            && |PositionRecords(c.kvs, start)| == 4 * |c.kvs| && |ElementsCells(c.kvs, start)| == ElementsSize(c.kvs)
  {
  }

  lemma ElementLimits(kvs: seq<KV<Value>>, j: nat)
    requires j < |kvs| && EncodableBucket(kvs) && !BucketHasEmptyWord(kvs)
    ensures Encodable(kvs[j]) && !HasEmptyWord(kvs[j])
  {
  }

  lemma ElementAtValue(t: Table<Value>, off: int, b: nat, j: nat)
    requires b < |t| && j <= |t[b].kvs|
    ensures ElementAt(t, off, b, j) == BucketOffset(t, off, b) + 4 * |t[b].kvs| + ElementsSize(t[b].kvs[..j])
  {
  }

  lemma HoldsElementIntro(s: seq<Byte>, off: int, kv: KV<Value>)
    requires 0 <= off && off + ElementSize(kv) <= MAX_INT32 && Encodable(kv) && !HasEmptyWord(kv)
    requires Holds(s, off, ElementCells(kv, off))
    ensures HoldsElement(s, off, kv)
  {
  }

  // Written anywhere in any file, a table that can be read again is held there.
  lemma WrittenIsHeld(d0: Disk, d1: Disk, off: nat, t: Table<Value>)
    requires Wrote(d0, d1, off, TableCells(t, off))
    requires off + TableSize(t) <= MAX_INT32 && EncodableTable(t) && !TableHasEmptyWord(t)
    ensures HoldsTable(d1.bytes, off, t)
  {
    hide *;
    WroteBytes(d0, d1, off, TableCells(t, off));
    TableFilled(t, off);
    OnDiskEncodable(t);
    var bs := Filled(TableCells(t, off));
    SomeBytes(t, off);
    PatchHolds(d0.bytes, off, bs);
    HoldsTableIntro(d1.bytes, off, t);
  }

  lemma SomeBytes(t: Table<Value>, off: int)
    ensures TableCells(t, off) != []
  {
  }

  // The region has only zeros.
  predicate Blank(s: seq<Byte>, off: int, n: nat)
  {
    forall i :: off <= i < off + n && 0 <= i < |s| ==> s[i] == 0
  }

  // Written where there were zeros, any table is held there with its names on disk, as
  // long as the file goes that far.
  lemma WrittenIsHeldOnDisk(d0: Disk, d1: Disk, off: nat, t: Table<Value>)
    requires Wrote(d0, d1, off, TableCells(t, off)) && Blank(d0.bytes, off, TableSize(t))
    requires off + TableSize(t) <= MAX_INT32 && off + TableSize(t) <= |d1.bytes| && !TableHasEmptyWord(t)
    ensures HoldsTable(d1.bytes, off, TableOnDisk(t))
  {
    hide *;
    WroteBytes(d0, d1, off, TableCells(t, off));
    TableFilled(t, off);
    OnDiskEncodable(t);
    BlankFilled(d0.bytes, off, TableCells(t, off));
    HoldsTableIntro(d1.bytes, off, TableOnDisk(t));
  }

  lemma BlankFilled(s: seq<Byte>, off: nat, cs: seq<Cell>)
    requires Blank(s, off, |cs|) && off + |cs| <= |Patch(s, off, cs)|
    ensures Holds(Patch(s, off, cs), off, Filled(cs))
  {
    hide Patch;
    var r := Patch(s, off, cs);
    forall i | 0 <= i < |cs|
      ensures r[off + i] == Filled(cs)[i]
    {
      PatchAt(s, off, cs, off + i);
    }
  }

  lemma FileNotShorter(d0: Disk, d1: Disk, off: nat, cs: seq<Cell>)
    requires Wrote(d0, d1, off, cs)
    ensures |d0.bytes| <= |d1.bytes|
  {
    hide Patch;
  }
}
