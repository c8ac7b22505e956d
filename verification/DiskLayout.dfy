/**
 What an index file should contain: a declarative layout of hash tables, with
 no seeking and no order of writing.  Every offset stored in a record is an
 absolute offset in the file.  The layout consists of cells: bytes, and holes where
 the writer skips a character of a file name.
 */
module DiskLayout {
  import opened Common
  import opened IndexFile
  import opened LayoutStructs

  // The payloads of the three kinds of table that are written to disk.
  datatype Value =
    | DocName(name: seq<Byte>)
    | Positions(positions: seq<Position>)
    | Postings(word: seq<Byte>, table: Table<Value>)

  // ----- strings -----

  // What strlen() gives when it is stored in an int16_t.
  function Length16(s: seq<Byte>): int
  {
    ToSigned(|s|, 2)
  }

  // The part of a string that the writer gets to.
  function Written(s: seq<Byte>): (r: seq<Byte>)
    ensures |r| == if Length16(s) < 0 then 0 else Length16(s)
    ensures |r| <= |s| && r == s[..|r|]
  {
    Length16Bound(s);
    s[..if Length16(s) < 0 then 0 else Length16(s)]
  }

  lemma Length16Bound(s: seq<Byte>)
    ensures -0x8000 <= Length16(s) <= MAX_INT16 && Length16(s) <= |s|
    ensures Length16(s) == |s| <==> |s| <= MAX_INT16
  {
    Pow256Values();
  }

  predicate Ascii(s: seq<Byte>)
  {
    forall i :: 0 <= i < |s| ==> s[i] < 0x80
  }

  // The characters of a name that isascii() accepts.
  function AsciiOnly(s: seq<Byte>): (r: seq<Byte>)
    ensures |r| <= |s|
    ensures r == s <==> Ascii(s)
  {
    if s == [] then []
    else if Last(s) < 0x80 then AsciiOnly(Init(s)) + [Last(s)] else AsciiOnly(Init(s))
  }

  // The characters of a name, and a hole at the end for those that are skipped.
  function NameCells(name: seq<Byte>): (r: seq<Cell>)
    ensures |r| == |Written(name)|
  {
    AsciiOnly(Written(name)) + Holes(|Written(name)| - |AsciiOnly(Written(name))|)
  }

  // ----- sizes -----

  function ElementSize(kv: KV<Value>): nat
    decreases kv, 0
  {
    match kv.value
    case DocName(name) => 10 + |Written(name)|
    case Positions(ps) => 12 + 4 * |ps|
    case Postings(word, table) => 6 + |Written(word)| + TableSize(table)
  }

  function ElementsSize(kvs: seq<KV<Value>>): nat
    decreases kvs, 1
  {
    if kvs == [] then 0 else ElementsSize(Init(kvs)) + ElementSize(Last(kvs))
  }

  function BucketSize(c: Chain<Value>): nat
    decreases c, 0
  {
    4 * |c.kvs| + ElementsSize(c.kvs)
  }

  function BucketsSize(cs: Table<Value>): nat
    decreases cs, 1
  {
    if cs == [] then 0 else BucketsSize(Init(cs)) + BucketSize(Last(cs))
  }

  function TableSize(t: Table<Value>): nat
    decreases t, 2
  {
    4 + 8 * |t| + BucketsSize(t)
  }

  // ----- contents -----

  function PositionsBytes(ps: seq<Position>): (bs: seq<Byte>)
    ensures |bs| == 4 * |ps|
  {
    if ps == [] then [] else PositionsBytes(Init(ps)) + BigEndian(Last(ps), 4)
  }

  function ElementCells(kv: KV<Value>, off: int): (r: seq<Cell>)
    ensures |r| == ElementSize(kv)
    decreases kv, 0
  {
    match kv.value
    case DocName(name) =>
      DoctableElementHeader(kv.key, |Written(name)|).ToDisk() + NameCells(name)
    case Positions(ps) =>
      DocIDElementHeader(kv.key, |ps|).ToDisk() + PositionsBytes(ps)
    case Postings(word, table) =>
      var n := |Written(word)|;
      WordPostingsHeader(n, TableSize(table)).ToDisk() + Written(word) + TableCells(table, off + 6 + n)
  }

  // The elements of a bucket, one after the other from pos.
  function ElementsCells(kvs: seq<KV<Value>>, pos: int): (r: seq<Cell>)
    ensures |r| == ElementsSize(kvs)
    decreases kvs, 1
  {
    if kvs == [] then []
    else ElementsCells(Init(kvs), pos) + ElementCells(Last(kvs), pos + ElementsSize(Init(kvs)))
  }

  // The ElementPositionRecords of a bucket whose elements start at pos.
  function PositionRecords(kvs: seq<KV<Value>>, pos: int): (bs: seq<Byte>)
    ensures |bs| == 4 * |kvs|
  {
    if kvs == [] then []
    else PositionRecords(Init(kvs), pos) + BigEndian(pos + ElementsSize(Init(kvs)), 4)
  }

  function BucketCells(c: Chain<Value>, off: int): (r: seq<Cell>)
    ensures |r| == BucketSize(c)
    decreases c, 0
  {
    PositionRecords(c.kvs, off + 4 * |c.kvs|) + ElementsCells(c.kvs, off + 4 * |c.kvs|)
  }

  function BucketsCells(cs: Table<Value>, pos: int): (r: seq<Cell>)
    ensures |r| == BucketsSize(cs)
    decreases cs, 1
  {
    if cs == [] then []
    else BucketsCells(Init(cs), pos) + BucketCells(Last(cs), pos + BucketsSize(Init(cs)))
  }

  // The BucketRecords of a table whose buckets start at pos.
  function BucketRecords(cs: Table<Value>, pos: int): (bs: seq<Byte>)
    ensures |bs| == 8 * |cs|
  {
    if cs == [] then []
    else BucketRecords(Init(cs), pos) + BucketRecord(|Last(cs).kvs|, pos + BucketsSize(Init(cs))).ToDisk()
  }

  function BucketsStart(t: Table<Value>, off: int): int
  {
    off + 4 + 8 * |t|
  }

  function TableCells(t: Table<Value>, off: int): (r: seq<Cell>)
    ensures |r| == TableSize(t)
    decreases t, 2
  {
    BigEndian(|t|, 4) + BucketRecords(t, BucketsStart(t, off)) + BucketsCells(t, BucketsStart(t, off))
  }

  // ----- what the format can represent -----

  // The lengths are not negative as numbers of 16 bits.  A name of negative length
  // would make the next element overwrite this one, a word would be read beyond its end.
  predicate Fits(kv: KV<Value>)
    decreases kv, 0
  {
    match kv.value
    case DocName(name) => Length16(name) >= 0
    case Positions(_) => true
    case Postings(word, table) => Length16(word) >= 0 && FitsTable(table)
  }

  predicate FitsBucket(kvs: seq<KV<Value>>)
    decreases kvs, 1
  {
    forall i :: 0 <= i < |kvs| ==> Fits(kvs[i])
  }

  predicate FitsTable(t: Table<Value>)
    decreases t, 2
  {
    forall i :: 0 <= i < |t| ==> FitsBucket(t[i].kvs)
  }

  // Names and words fit their 16-bit length field, and names are ASCII, so that they can
  // be read again.
  predicate Encodable(kv: KV<Value>)
    decreases kv, 0
  {
    match kv.value
    case DocName(name) => |name| <= MAX_INT16 && Ascii(name)
    case Positions(_) => true
    case Postings(word, table) => |word| <= MAX_INT16 && EncodableTable(table)
  }

  predicate EncodableBucket(kvs: seq<KV<Value>>)
    decreases kvs, 1
  {
    forall i :: 0 <= i < |kvs| ==> Encodable(kvs[i])
  }

  predicate EncodableTable(t: Table<Value>)
    decreases t, 2
  {
    forall i :: 0 <= i < |t| ==> EncodableBucket(t[i].kvs)
  }

  // No file names, so nothing that the writer would skip.
  predicate Nameless(kv: KV<Value>)
    decreases kv, 0
  {
    match kv.value
    case DocName(_) => false
    case Positions(_) => true
    case Postings(_, table) => NamelessTable(table)
  }

  predicate NamelessBucket(kvs: seq<KV<Value>>)
    decreases kvs, 1
  {
    forall i :: 0 <= i < |kvs| ==> Nameless(kvs[i])
  }

  predicate NamelessTable(t: Table<Value>)
    decreases t, 2
  {
    forall i :: 0 <= i < |t| ==> NamelessBucket(t[i].kvs)
  }

  // A word of length zero, as a number of 16 bits, makes the writer fail.
  predicate HasEmptyWord(kv: KV<Value>)
    decreases kv, 0
  {
    kv.value.Postings? && (Written(kv.value.word) == [] || TableHasEmptyWord(kv.value.table))
  }

  predicate BucketHasEmptyWord(kvs: seq<KV<Value>>)
    decreases kvs, 1
  {
    exists i :: 0 <= i < |kvs| && HasEmptyWord(kvs[i])
  }

  predicate TableHasEmptyWord(t: Table<Value>)
    decreases t, 2
  {
    exists i :: 0 <= i < |t| && BucketHasEmptyWord(t[i].kvs)
  }

  // ----- what can be read again -----

  // What is found on disk where a name was written, when there were zeros before.
  function NameOnDisk(name: seq<Byte>): (r: seq<Byte>)
    ensures |r| == |Written(name)|
  {
    AsciiOnly(Written(name)) + Zeros(|Written(name)| - |AsciiOnly(Written(name))|)
  }

  function OnDisk(kv: KV<Value>): (r: KV<Value>)
    ensures r.key == kv.key
    decreases kv, 0
  {
    match kv.value
    case DocName(name) => KV(kv.key, DocName(NameOnDisk(name)))
    case Positions(_) => kv
    case Postings(word, table) => KV(kv.key, Postings(Written(word), TableOnDisk(table)))
  }

  function BucketOnDisk(kvs: seq<KV<Value>>): (r: seq<KV<Value>>)
    ensures |r| == |kvs| && forall i :: 0 <= i < |kvs| ==> r[i] == OnDisk(kvs[i])
    decreases kvs, 1
  {
    if kvs == [] then [] else BucketOnDisk(Init(kvs)) + [OnDisk(Last(kvs))]
  }

  function TableOnDisk(t: Table<Value>): (r: Table<Value>)
    ensures |r| == |t| && forall i :: 0 <= i < |t| ==> r[i].kvs == BucketOnDisk(t[i].kvs)
    decreases t, 2
  {
    if t == [] then [] else TableOnDisk(Init(t)) + [Chain(BucketOnDisk(Last(t).kvs))]
  }
}
