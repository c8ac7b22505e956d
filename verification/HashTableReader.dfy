/**
 The walk by file offsets that every table reader shares (hw3/HashTableReader.cc).
 A failed read or seek (Verify333) ends the program; it is the result None.
 */
module HashTableReader {
  import opened Common
  import opened LayoutStructs
  import opened IndexFile
  import opened DiskLayout
  import opened DiskRegions

  // ----- what the walk computes, for any file -----

  function NumBucketsAt(s: seq<Byte>, off: int): Option<int>
  {
    match ReadAt(s, off, 4)
    case None => None
    case Some(b) => Some(Signed(b))
  }

  // The offset of a bucket record, as an IndexFileOffset_t of 32 bits.
  function RecordOffset(off: int, b: int): int
  {
    ToSigned(off + 4 + 8 * b, 4)
  }

  // A signed number as an unsigned one of 64 bits.
  function AsUnsigned(x: int): (u: nat)
  {
    x % 0x1_0000_0000_0000_0000
  }

  // hash_key % num_buckets in unsigned arithmetic of 64 bits, cast to an int.
  function BucketNumber(key: Key, numBuckets: int): int
    requires AsUnsigned(numBuckets) != 0
  {
    ToSigned(key % AsUnsigned(numBuckets), 4)
  }

  lemma BucketNumberValue(key: Key, n: int)
    requires 0 < n <= MAX_INT32
    ensures AsUnsigned(n) == n && BucketNumber(key, n) == key % n
  {
    SignedOffset(key % n);
    ModUnique(n, 0x1_0000_0000_0000_0000, 0, n);
  }

  function BucketRecordAt(s: seq<Byte>, off: int, b: int): Option<BucketRecord>
  {
    match ReadAt(s, RecordOffset(off, b), 8)
    case None => None
    case Some(bs) => Some(BucketRecord.FromDisk(bs))
  }

  // n consecutive position records from pos.
  function PositionsAt(s: seq<Byte>, pos: int, n: int): Option<seq<int>>
  {
    if n <= 0 then Some([])
    else
      match PositionsAt(s, pos, n - 1)
      case None => None
      case Some(ps) =>
        match ReadAt(s, pos + 4 * (n - 1), 4)
        case None => None
        case Some(b) => Some(ps + [Signed(b)])
  }

  function BucketPositions(s: seq<Byte>, off: int, b: int): Option<seq<int>>
  {
    match BucketRecordAt(s, off, b)
    case None => None
    case Some(r) => if r.position < 0 then None else PositionsAt(s, r.position, r.chainNumElements)
  }

  // Without buckets there is a division by zero, which also ends the program.
  function ElementPositions(s: seq<Byte>, off: int, numBuckets: int, key: Key): Option<seq<int>>
  {
    if AsUnsigned(numBuckets) == 0 then None else BucketPositions(s, off, BucketNumber(key, numBuckets))
  }

  class HashTableReader {
    const file: File
    const offset: int
    const numBuckets: int

    // A reader on a header that has been read already.
    constructor (contents: seq<Byte>, offset: int, numBuckets: int)
      ensures fresh(file) && file.bytes == contents
      ensures this.offset == offset && this.numBuckets == numBuckets
    {
      file := new File.Open(contents);
      this.offset, this.numBuckets := offset, numBuckets;
    }

    // The reader's own constructor: read the bucket count.
    static method Open(contents: seq<Byte>, offset: int) returns (r: Option<HashTableReader>)
      ensures r.None? <==> NumBucketsAt(contents, offset).None?
      ensures r.Some? ==>
                && fresh(r.value) && fresh(r.value.file) && r.value.file.bytes == contents
                && r.value.offset == offset && NumBucketsAt(contents, offset) == Some(r.value.numBuckets)
    {
      var f := new File.Open(contents);
      var ok := f.Seek(offset);
      if !ok {
        return None;
      }
      var b := f.ReadItem(4);
      if b.None? {
        return None;
      }
      var reader := new HashTableReader(contents, offset, Signed(b.value));
      r := Some(reader);
    }

    method ReadBucketRecord(b: int) returns (r: Option<BucketRecord>)
      modifies file`pos
      ensures r == BucketRecordAt(file.bytes, offset, b)
    {
      var ok := file.Seek(RecordOffset(offset, b));
      if !ok {
        return None;
      }
      var bs := file.ReadItem(8);
      r := if bs.None? then None else Some(BucketRecord.FromDisk(bs.value));
    }

    method LookupElementPositions(hashKey: Key) returns (r: Option<seq<int>>)
      modifies file`pos
      ensures r == ElementPositions(file.bytes, offset, numBuckets, hashKey)
    {
      if AsUnsigned(numBuckets) == 0 {
        return None;
      }
      var bucketNum := BucketNumber(hashKey, numBuckets);
      var rec := ReadBucketRecord(bucketNum);
      if rec.None? {
        return None;
      }
      var ok := file.Seek(rec.value.position);
      if !ok {
        return None;
      }
      var retVal: seq<int> := [];
      var i := 0;
      var n := rec.value.chainNumElements;
      while i < n
        invariant 0 <= i && (i <= n || i == 0)
        invariant file.pos == rec.value.position + 4 * i
        invariant PositionsAt(file.bytes, rec.value.position, i) == Some(retVal)
      {
        var currPos := file.ReadItem(4);
        if currPos.None? {
          PositionsFail(file.bytes, rec.value.position, i + 1, n);
          return None;
        }
        retVal := retVal + [Signed(currPos.value)];
        i := i + 1;
      }
      r := Some(retVal);
    }
  }

  lemma {:induction false} PositionsFail(s: seq<Byte>, pos: int, i: int, n: int)
    requires i <= n && PositionsAt(s, pos, i).None?
    ensures PositionsAt(s, pos, n).None?
    decreases n - i
  {
    if i < n {
      PositionsFail(s, pos, i, n - 1);
    }
  }

  // ----- what the walk finds in a written table -----

  lemma ReadHeld(s: seq<Byte>, off: int, bs: seq<Byte>)
    requires Holds(s, off, bs)
    ensures ReadAt(s, off, |bs|) == Some(bs)
  {
  }

  lemma NumBucketsOfTable(s: seq<Byte>, off: int, t: Table<Value>)
    requires HoldsTable(s, off, t)
    ensures NumBucketsAt(s, off) == Some(|t|)
  {
    HeldTable(s, off, t);
    ReadHeld(s, off, BigEndian(|t|, 4));
    BucketCountFits(t);
    HoldsTableRange(s, off, t);
    hide TableSize, HoldsTable;
    SignedRoundTrip(|t|, 4);
    Pow256Values();
  }

  lemma BucketCountFits(t: Table<Value>)
    ensures |t| <= TableSize(t)
  {
  }

  lemma ChainCountFits(c: Chain<Value>)
    ensures |c.kvs| <= BucketSize(c) && 0 <= BucketSize(c)
  {
  }

  // The offsets of the elements of bucket b, in chain order.
  function ElementOffsets(t: Table<Value>, off: int, b: nat): (r: seq<int>)
    requires b < |t|
    ensures |r| == |t[b].kvs|
    ensures forall j :: 0 <= j < |r| ==> r[j] == ElementAt(t, off, b, j)
  {
    seq(|t[b].kvs|, j requires 0 <= j < |t[b].kvs| => ElementAt(t, off, b, j))
  }

  lemma BucketRecordOfTable(s: seq<Byte>, off: int, t: Table<Value>, b: nat)
    requires HoldsTable(s, off, t) && b < |t|
    ensures BucketRecordAt(s, off, b) == Some(BucketRecord(|t[b].kvs|, BucketOffset(t, off, b)))
    ensures 0 <= BucketOffset(t, off, b) <= MAX_INT32
  {
    hide *;
    HeldBucket(s, off, t, b);
    HoldsTableRange(s, off, t);
    OffsetValues(t, off, b);
    ChainCountFits(t[b]);
    var r := BucketRecord(|t[b].kvs|, BucketOffset(t, off, b));
    SignedOffset(off + 4 + 8 * b);
    ReadHeld(s, off + 4 + 8 * b, r.ToDisk());
    RecordFits(r);
    BucketRecordAtValue(s, off, b);
  }

  lemma RecordFits(r: BucketRecord)
    requires 0 <= r.chainNumElements <= MAX_INT32 && 0 <= r.position <= MAX_INT32
    ensures BucketRecord.FromDisk(r.ToDisk()) == r
  {
    BucketRecordRoundTrip(r);
    Pow256Values();
  }

  lemma BucketRecordAtValue(s: seq<Byte>, off: int, b: int)
    ensures var bs := ReadAt(s, ToSigned(off + 4 + 8 * b, 4), 8);
            BucketRecordAt(s, off, b) == if bs.None? then None else Some(BucketRecord.FromDisk(bs.value))
  {
  }

  lemma {:induction false} PositionsOfTable(s: seq<Byte>, off: int, t: Table<Value>, b: nat, n: nat)
    requires HoldsTable(s, off, t) && b < |t| && n <= |t[b].kvs|
    ensures PositionsAt(s, BucketOffset(t, off, b), n) == Some(ElementOffsets(t, off, b)[..n])
  {
    hide HoldsTable, BucketOffset, ElementAt, HoldsElement, Holds, ReadAt;
    if n > 0 {
      PositionsOfTable(s, off, t, b, n - 1);
      HeldElement(s, off, t, b, n - 1);
      var epos := ElementAt(t, off, b, n - 1);
      ReadHeld(s, BucketOffset(t, off, b) + 4 * (n - 1), BigEndian(epos, 4));
      SignedRoundTrip(epos, 4);
      Pow256Values();
      assert ElementOffsets(t, off, b)[..n] == ElementOffsets(t, off, b)[..n - 1] + [epos];
    }
  }

  // In a file that holds a table, the walk for any key, present or not, finds
  // exactly the elements of the key's bucket, in chain order, each of them
  // held by the file at the offset found.
  lemma WalkFindsBucket(s: seq<Byte>, off: int, t: Table<Value>, key: Key)
    requires HoldsTable(s, off, t) && |t| > 0
    ensures NumBucketsAt(s, off) == Some(|t|)
    ensures ElementPositions(s, off, |t|, key) == Some(ElementOffsets(t, off, key % |t|))
    ensures forall j :: 0 <= j < |t[key % |t|].kvs| ==>
              HoldsElement(s, ElementOffsets(t, off, key % |t|)[j], t[key % |t|].kvs[j])
  {
    BucketIsFound(s, off, t, key % |t|);
    NumBucketsOfTable(s, off, t);
    BucketCountFits(t);
    BucketNumberValue(key, |t|);
    hide BucketPositions, BucketNumber, AsUnsigned, HoldsElement, TableCells;
  }

  lemma BucketIsFound(s: seq<Byte>, off: int, t: Table<Value>, b: nat)
    requires HoldsTable(s, off, t) && b < |t|
    ensures BucketPositions(s, off, b) == Some(ElementOffsets(t, off, b))
    ensures forall j :: 0 <= j < |t[b].kvs| ==> HoldsElement(s, ElementOffsets(t, off, b)[j], t[b].kvs[j])
  {
    hide HoldsTable, BucketOffset, ElementAt, HoldsElement, PositionsAt, BucketRecordAt;
    BucketRecordOfTable(s, off, t, b);
    PositionsOfTable(s, off, t, b, |t[b].kvs|);
    assert ElementOffsets(t, off, b)[..|t[b].kvs|] == ElementOffsets(t, off, b);
    forall j | 0 <= j < |t[b].kvs|
      ensures HoldsElement(s, ElementOffsets(t, off, b)[j], t[b].kvs[j])
    {
      HeldElement(s, off, t, b, j);
    }
  }
}
