/**
 Opening an index file (hw3/FileIndexReader.cc): the header, length and
 checksum tests, and what they guarantee about files the writer made.
 */
module FileIndexReader {
  import opened Common
  import opened LayoutStructs
  import opened IndexFile
  import opened DiskLayout
  import opened Crc
  import opened WriteIndex

  const KBUFSIZE: nat := 512

  function HeaderOf(s: seq<Byte>): IndexFileHeader
    requires |s| >= 16
  {
    IndexFileHeader.FromDisk(s[..16])
  }

  // The magic number is right and the length agrees with the header; the
  // length is compared as an unsigned 32-bit number.
  predicate HeaderAccepted(s: seq<Byte>)
  {
    && |s| >= 16
    && HeaderOf(s).magicNumber == MAGIC_NUMBER
    && |s| == (16 + HeaderOf(s).doctableBytes + HeaderOf(s).indexBytes) % 0x1_0000_0000
  }

  // The number of bytes to checksum, as a 32-bit int.
  function LeftToRead(h: IndexFileHeader): int
  {
    ToSigned(h.doctableBytes + h.indexBytes, 4)
  }

  predicate Accepted(s: seq<Byte>, validate: bool)
  {
    && HeaderAccepted(s)
    && (validate ==>
          HeaderOf(s).checksum == ToNat(Crc32Of(if LeftToRead(HeaderOf(s)) <= 0 then [] else s[16..])))
  }

  // The constructor; None stands for a failed Verify333, which ends the program.
  method OpenIndex(contents: seq<Byte>, validate: bool) returns (r: Option<IndexFileHeader>)
    ensures r == if Accepted(contents, validate) then Some(HeaderOf(contents)) else None
  {
    var file := new File.Open(contents);
    var bytes := file.ReadItem(16);
    if bytes.None? {
      return None;
    }
    var header := IndexFileHeader.FromDisk(bytes.value);
    if header.magicNumber != MAGIC_NUMBER {
      return None;
    }
    if |contents| != (16 + header.doctableBytes + header.indexBytes) % 0x1_0000_0000 {
      return None;
    }
    if validate {
      var ok := Checksum(file, header);
      if !ok {
        return None;
      }
    }
    r := Some(header);
  }

  // The checksum loop of the constructor, from just behind the header.
  method Checksum(file: File, header: IndexFileHeader) returns (ok: bool)
    requires file.pos == 16 <= |file.bytes|
    requires |file.bytes| == (16 + header.doctableBytes + header.indexBytes) % 0x1_0000_0000
    modifies file`pos
    ensures ok <==> header.checksum == ToNat(Crc32Of(if LeftToRead(header) <= 0 then [] else file.bytes[16..]))
  {
    hide *;
    BufferSize();
    var crcObj := new Crc32();
    var leftToRead := LeftToRead(header);
    var size := |file.bytes|;
    LeftIsRest(header, size);
    assert file.bytes[16..16] == [];
    while leftToRead > 0
      invariant crcObj.Valid() && !crcObj.finalized && fresh(crcObj) && fresh(crcObj.table)
      invariant 16 <= file.pos <= size
      invariant leftToRead == if LeftToRead(header) <= 0 then LeftToRead(header) else size - file.pos
      invariant LeftToRead(header) <= 0 ==> file.pos == 16
      invariant crcObj.folded == file.bytes[16..file.pos]
    {
      ghost var pos := file.pos;
      var buf := file.ReadUpTo(KBUFSIZE);
      FoldAll(crcObj, buf);
      assert file.bytes[16..pos] + buf == file.bytes[16..file.pos];
      leftToRead := leftToRead - |buf|;
    }
    var crc := crcObj.GetFinalCRC();
    assert file.bytes[16..size] == file.bytes[16..];
    ok := ToNat(crc) == header.checksum;
  }

  lemma BufferSize()
    ensures KBUFSIZE == 512
  {
  }

  // When the length test passed and there is something to read, what is left
  // to read is the rest of the file.
  lemma LeftIsRest(h: IndexFileHeader, size: nat)
    requires 16 <= size == (16 + h.doctableBytes + h.indexBytes) % 0x1_0000_0000
    ensures LeftToRead(h) > 0 ==> LeftToRead(h) == size - 16
  {
    Pow256Values();
    var sum := h.doctableBytes + h.indexBytes;
    var q := (16 + sum) / 0x1_0000_0000;
    ModUnique(sum, 0x1_0000_0000, q, size - 16);
  }

  // ----- what the writer made is accepted -----

  lemma WrittenHeader(dt: Table<Value>, mi: Table<Value>)
    requires TableSize(dt) <= MAX_INT32 && TableSize(mi) <= MAX_INT32
    ensures var s, h := IndexBytes(dt, mi), HeaderFor(TablesBytes(dt, mi), TableSize(dt), TableSize(mi));
            && |s| == 16 + TableSize(dt) + TableSize(mi) && HeaderOf(s) == h
            && s[..16] == h.ToDisk() && s[16..] == TablesBytes(dt, mi)
  {
    var body := TablesBytes(dt, mi);
    var h := HeaderFor(body, TableSize(dt), TableSize(mi));
    HeaderRoundTrip(h, body);
    hide TablesBytes, TableCells, TableSize;
    assert (h.ToDisk() + body)[..16] == h.ToDisk() && (h.ToDisk() + body)[16..] == body;
  }

  lemma HeaderRoundTrip(h: IndexFileHeader, body: seq<Byte>)
    requires h == HeaderFor(body, h.doctableBytes, h.indexBytes)
    requires 0 <= h.doctableBytes <= MAX_INT32 && 0 <= h.indexBytes <= MAX_INT32
    ensures IndexFileHeader.FromDisk(h.ToDisk()) == h
  {
    hide *;
    IndexFileHeaderRoundTrip(h);
    HeaderForValue(body, h.doctableBytes, h.indexBytes);
    ToBitsOfNat(Crc32Of(body));
    Power2Values();
    HeaderLimits();
    SignedLimits(h.doctableBytes);
    SignedLimits(h.indexBytes);
  }

  lemma HeaderLimits()
    ensures MAX_INT32 == 0x7FFF_FFFF && MAGIC_NUMBER == 0xCAFE_F00D
  {
  }

  lemma SignedLimits(x: int)
    ensures FitsSigned(x, 4) <==> -0x8000_0000 <= x <= 0x7FFF_FFFF
  {
    Pow256Values();
  }

  lemma WrittenIndexAccepted(dt: Table<Value>, mi: Table<Value>, validate: bool)
    requires HEADER_SIZE + TableSize(dt) + TableSize(mi) <= MAX_INT32
    ensures Accepted(IndexBytes(dt, mi), validate)
  {
    hide *;
    HeaderSizeValue();
    HeaderLimits();
    TableSizePositive(dt);
    TableSizePositive(mi);
    WrittenHeader(dt, mi);
    HeaderForValue(TablesBytes(dt, mi), TableSize(dt), TableSize(mi));
    SizesAccepted(IndexBytes(dt, mi), HeaderOf(IndexBytes(dt, mi)), TablesBytes(dt, mi), validate);
  }

  lemma SizesAccepted(s: seq<Byte>, h: IndexFileHeader, body: seq<Byte>, validate: bool)
    requires 16 <= |s| <= MAX_INT32 && h == HeaderOf(s) && s[16..] == body
    requires h.magicNumber == MAGIC_NUMBER && h.checksum == ToNat(Crc32Of(body))
    requires h.doctableBytes + h.indexBytes == |body| > 0
    ensures Accepted(s, validate)
  {
    hide HeaderOf, Crc32Of, ToNat;
    var n := |body|;
    ModUnique(n, 0x1_0000_0000, 0, n);
    ModUnique(16 + n, 0x1_0000_0000, 0, 16 + n);
    Pow256Values();
  }

  // ----- the header is a commit record -----

  // A crash during write k of the log, after j of its bytes.
  function CrashState(log: seq<WriteOp>, k: nat, j: nat): seq<Byte>
    requires k < |log| && j <= |log[k].bs|
  {
    Patch(Replay([], log[..k]), log[k].off, log[k].bs[..j])
  }

  lemma {:induction false} LateWritesLeaveZeros(log: seq<WriteOp>)
    requires forall k :: 0 <= k < |log| ==> 16 <= log[k].off
    ensures forall i :: 0 <= i < 16 && i < |Replay([], log)| ==> Replay([], log)[i] == 0
  {
    if log != [] {
      LateWritesLeaveZeros(Init(log));
      LateWriteLeavesZeros(Replay([], Init(log)), Last(log).off, Last(log).bs);
    }
  }

  lemma LateWriteLeavesZeros(s: seq<Byte>, off: nat, bs: seq<Byte>)
    requires 16 <= off && forall i :: 0 <= i < 16 && i < |s| ==> s[i] == 0
    ensures forall i :: 0 <= i < 16 && i < |Patch(s, off, bs)| ==> Patch(s, off, bs)[i] == 0
  {
    if bs != [] {
      forall i | 0 <= i < 16 && i < |Patch(s, off, bs)|
        ensures Patch(s, off, bs)[i] == 0
      {
        PatchAt(s, off, bs, i);
      }
    }
  }

  // The last byte of the magic number is 0x0D, so a zero there is not magic.
  lemma ZeroIsNotMagic(s: seq<Byte>)
    requires |s| >= 16 && s[3] == 0
    ensures !HeaderAccepted(s)
  {
    assert s[..16][..4] == s[..4];
    assert Unsigned(s[..4]) == 256 * Unsigned(Init(s[..4])) + 0;
  }

  // Losing the tail of a field never makes its value larger.
  lemma {:induction false} TornField(a: seq<Byte>, m: nat)
    requires m <= |a|
    ensures Unsigned(a[..m] + Zeros(|a| - m)) <= Unsigned(a)
  {
    var torn := a[..m] + Zeros(|a| - m);
    if m == |a| {
      assert torn == a;
    } else {
      TornField(Init(a), m);
      assert Init(torn) == Init(a)[..m] + Zeros(|Init(a)| - m);
    }
  }

  lemma UnsignedInjective(a: seq<Byte>, b: seq<Byte>)
    requires |a| == |b| && Unsigned(a) == Unsigned(b)
    ensures a == b
  {
    BigEndianOfUnsigned(a);
    BigEndianOfUnsigned(b);
  }

  lemma SmallFieldIsUnsigned(a: seq<Byte>)
    requires |a| == 4
    ensures 0 <= Unsigned(a) < 0x1_0000_0000
    ensures Signed(a) == if Unsigned(a) <= 0x7FFF_FFFF then Unsigned(a) else Unsigned(a) - 0x1_0000_0000
  {
    BigEndianOfUnsigned(a);
    Pow256Values();
  }

  function TornHeader(header: seq<Byte>, j: nat): (r: seq<Byte>)
    requires j <= |header|
    ensures |r| == |header|
  {
    header[..j] + Zeros(|header| - j)
  }

  lemma TornSizeField(header: seq<Byte>, j: nat, lo: nat)
    requires j <= |header| == 16 && lo <= 12 && Unsigned(header[lo..lo + 4]) <= MAX_INT32
    ensures var torn := TornHeader(header, j)[lo..lo + 4];
            && 0 <= Signed(torn) <= Signed(header[lo..lo + 4])
            && (Signed(torn) == Signed(header[lo..lo + 4]) ==> torn == header[lo..lo + 4])
            && (j <= lo ==> Signed(torn) == 0)
  {
    hide *;
    var field, torn := header[lo..lo + 4], TornHeader(header, j)[lo..lo + 4];
    var m := if j <= lo then 0 else if j < lo + 4 then j - lo else 4;
    TornHeaderPart(header, j, lo, m);
    HeaderLimits();
    TornField(field, m);
    SmallFieldIsUnsigned(field);
    SmallFieldIsUnsigned(torn);
    if Signed(torn) == Signed(field) {
      UnsignedInjective(torn, field);
    }
    ZeroField();
  }

  lemma TornHeaderPart(header: seq<Byte>, j: nat, lo: nat, m: nat)
    requires j <= |header| == 16 && lo <= 12 && m == if j <= lo then 0 else if j < lo + 4 then j - lo else 4
    ensures TornHeader(header, j)[lo..lo + 4] == header[lo..lo + 4][..m] + Zeros(4 - m)
    ensures j <= lo ==> TornHeader(header, j)[lo..lo + 4] == Zeros(4)
  {
    var torn := TornHeader(header, j);
    assert forall i :: 0 <= i < 16 ==> torn[i] == if i < j then header[i] else 0;
    var field, part := header[lo..lo + 4], header[lo..lo + 4][..m] + Zeros(4 - m);
    hide TornHeader;
    forall i | 0 <= i < 4
      ensures torn[lo..lo + 4][i] == part[i]
    {
      assert torn[lo..lo + 4][i] == torn[lo + i] && field[i] == header[lo + i];
    }
  }

  lemma ZeroField()
    ensures Unsigned(Zeros(4)) == 0
  {
    UnsignedRoundTrip(0, 4);
    Pow256Values();
    assert BigEndian(0, 4) == Zeros(4);
  }

  // A header cut short is accepted only if nothing was lost.
  lemma TornHeaderRejected(h: IndexFileHeader, body: seq<Byte>, j: nat)
    requires 1 <= h.doctableBytes && 1 <= h.indexBytes && 16 + |body| <= MAX_INT32
    requires |body| == h.doctableBytes + h.indexBytes && j <= 16
    requires HeaderAccepted(TornHeader(h.ToDisk(), j) + body)
    ensures TornHeader(h.ToDisk(), j) == h.ToDisk()
  {
    hide *;
    var header, torn := h.ToDisk(), TornHeader(h.ToDisk(), j);
    AcceptedLength(torn, body);
    SizeFields(h);
    TornSizeField(header, j, 8);
    TornSizeField(header, j, 12);
    var d, i := Signed(torn[8..12]), Signed(torn[12..16]);
    assert d == h.doctableBytes && i == h.indexBytes;
    assert j > 12;
    TornPrefix(header, j);
    assert torn == torn[..12] + torn[12..16];
    assert header == header[..12] + header[12..16];
  }

  lemma TornPrefix(header: seq<Byte>, j: nat)
    requires 12 <= j <= |header|
    ensures TornHeader(header, j)[..12] == header[..12]
  {
  }

  lemma AcceptedLength(header: seq<Byte>, body: seq<Byte>)
    requires |header| == 16 && HeaderAccepted(header + body)
    ensures 16 + |body| == (16 + Signed(header[8..12]) + Signed(header[12..16])) % 0x1_0000_0000
    ensures MAX_INT32 == 0x7FFF_FFFF
  {
    hide Signed, Unsigned;
    assert (header + body)[..16] == header && header[12..] == header[12..16];
  }

  lemma SizeFields(h: IndexFileHeader)
    requires 0 <= h.doctableBytes <= 0x7FFF_FFFF && 0 <= h.indexBytes <= 0x7FFF_FFFF
    ensures Signed(h.ToDisk()[8..12]) == Unsigned(h.ToDisk()[8..12]) == h.doctableBytes
    ensures Signed(h.ToDisk()[12..16]) == Unsigned(h.ToDisk()[12..16]) == h.indexBytes
  {
    hide BigEndian, Unsigned, Signed;
    assert h.ToDisk()[8..12] == BigEndian(h.doctableBytes, 4);
    assert h.ToDisk()[12..16] == BigEndian(h.indexBytes, 4);
    SignedLimits(h.doctableBytes);
    SignedLimits(h.indexBytes);
    SignedRoundTrip(h.doctableBytes, 4);
    SignedRoundTrip(h.indexBytes, 4);
    UnsignedRoundTrip(h.doctableBytes, 4);
    UnsignedRoundTrip(h.indexBytes, 4);
    Pow256Values();
  }

  // However far the writer got, even to the middle of a write, a file whose
  // header is accepted is the finished file.
  lemma CommitRecord(dt: Table<Value>, mi: Table<Value>, log: seq<WriteOp>, k: nat, j: nat)
    requires HEADER_SIZE + TableSize(dt) + TableSize(mi) <= MAX_INT32
    requires CommitsLast(log, IndexBytes(dt, mi)[..16]) && Replay([], log) == IndexBytes(dt, mi)
    requires k < |log| && j <= |log[k].bs|
    requires HeaderAccepted(CrashState(log, k, j))
    ensures CrashState(log, k, j) == IndexBytes(dt, mi)
  {
    var h, body := HeaderFor(TablesBytes(dt, mi), TableSize(dt), TableSize(mi)), TablesBytes(dt, mi);
    hide *;
    HeaderSizeValue();
    HeaderLimits();
    TableSizePositive(dt);
    TableSizePositive(mi);
    WrittenHeader(dt, mi);
    HeaderForValue(body, TableSize(dt), TableSize(mi));
    CommitsLastValue(log, h.ToDisk());
    CrashStateValue(log, k, j);
    LateWritesLeaveZeros(log[..k]);
    if k < |log| - 1 {
      LateWriteLeavesZeros(Replay([], log[..k]), log[k].off, log[k].bs[..j]);
      EarlyCrashRejected(CrashState(log, k, j));
    } else {
      assert IndexBytes(dt, mi) == h.ToDisk() + body by {
        assert IndexBytes(dt, mi) == IndexBytes(dt, mi)[..16] + IndexBytes(dt, mi)[16..];
      }
      LastCrash(Replay([], log[..k]), h.ToDisk(), body, j);
      TornHeaderRejected(h, body, j);
    }
  }

  lemma CommitsLastValue(log: seq<WriteOp>, header: seq<Byte>)
    requires CommitsLast(log, header)
    ensures log != [] && log[|log| - 1] == WriteOp(0, header)
    ensures Replay([], log) == Patch(Replay([], log[..|log| - 1]), 0, header)
    ensures forall k :: 0 <= k < |log| - 1 ==> 16 <= log[k].off
  {
    hide Patch;
    assert Init(log) == log[..|log| - 1];
  }

  lemma CrashStateValue(log: seq<WriteOp>, k: nat, j: nat)
    requires k < |log| && j <= |log[k].bs|
    ensures CrashState(log, k, j) == Patch(Replay([], log[..k]), log[k].off, log[k].bs[..j])
  {
  }

  lemma EarlyCrashRejected(s: seq<Byte>)
    requires forall i :: 0 <= i < 16 && i < |s| ==> s[i] == 0
    ensures !HeaderAccepted(s)
  {
    if |s| >= 16 {
      ZeroIsNotMagic(s);
    }
  }

  lemma TableSizePositive(t: Table<Value>)
    ensures TableSize(t) >= 4
  {
  }

  lemma LastCrash(pre: seq<Byte>, header: seq<Byte>, body: seq<Byte>, j: nat)
    requires |header| == 16 && body != [] && j <= 16 && Patch(pre, 0, header) == header + body
    requires forall i :: 0 <= i < 16 && i < |pre| ==> pre[i] == 0
    ensures Patch(pre, 0, header[..j]) == TornHeader(header, j) + body
  {
    assert |pre| == 16 + |body|;
    var s, t := Patch(pre, 0, header[..j]), TornHeader(header, j) + body;
    forall i | 0 <= i < |s|
      ensures s[i] == t[i]
    {
      PatchAt(pre, 0, header, i);
      assert i >= 16 ==> (header + body)[i] == pre[i];
      if j > 0 {
        PatchAt(pre, 0, header[..j], i);
      }
    }
  }

  // ----- damage is noticed -----

  lemma {:induction false} UnsignedConcat(a: seq<Byte>, b: seq<Byte>)
    ensures Unsigned(a + b) == Unsigned(a) * Pow256(|b|) + Unsigned(b)
    decreases |b|
  {
    hide *;
    InitConcat(a, b);
    UnsignedLast(a + b);
    UnsignedLast(b);
    if b != [] {
      UnsignedConcat(a, Init(b));
      ShiftOne(Unsigned(a), Pow256(|b| - 1), Unsigned(Init(b)), Last(b));
    }
  }

  lemma UnsignedLast(s: seq<Byte>)
    ensures s == [] ==> Unsigned(s) == 0 && Pow256(|s|) == 1
    ensures s != [] ==>
              && Unsigned(s) == 256 * Unsigned(Init(s)) + Last(s)
              && |Init(s)| == |s| - 1 && Pow256(|s|) == 256 * Pow256(|s| - 1)
  {
  }

  lemma ShiftOne(u: int, p: int, v: int, x: int)
    ensures 256 * (u * p + v) + x == u * (256 * p) + (256 * v + x)
  {
  }

  lemma SameRemainder(x: int, y: int, n: int) returns (q: int)
    requires n >= 1 && x % n == y % n
    ensures x - y == q * n
  {
    q := x / n - y / n;
    assert q * n == (x / n) * n - (y / n) * n;
  }

  predicate IsProduct(n: int, a: int, b: int)
  {
    n == a * b
  }

  // The difference of two sums, by its two parts, is a multiple of n.
  predicate SumsMeet(du: int, dv: int, n: int)
    requires n >= 1
  {
    (du + dv) % n == 0
  }

  // Adding a multiple of p to one number and less than p to the other moves
  // their sum by less than a whole turn, so an unmoved sum means neither moved.
  lemma SumModulo(du: int, dv: int, p: int, e: int, m: int, n: int)
    requires p >= 1 && m >= 1 && n >= 1 && IsProduct(n, p, m) && -n < dv < n
    requires -p < du < p && IsProduct(dv, e, p) && SumsMeet(du, dv, n)
    ensures du == 0 && dv == 0
  {
    var q := (du + dv) / n;
    Regroup(q, m, e, p);
    MultipleInRange(q * m - e, p);
    MultipleInRange(q, n);
  }

  lemma Regroup(q: int, m: int, dv: int, p: int)
    ensures (q * m - dv) * p == q * (p * m) - dv * p
  {
  }

  lemma MultipleInRange(e: int, p: int)
    requires p >= 1 && -p < e * p < p
    ensures e == 0
  {
    assert e >= 1 ==> e * p >= p;
    assert e <= -1 ==> e * p <= -p;
  }

  lemma {:induction false} PowAdd(m: nat, n: nat)
    ensures Pow256(m + n) == Pow256(m) * Pow256(n)
  {
    if m > 0 {
      PowAdd(m - 1, n);
      assert 256 * (Pow256(m - 1) * Pow256(n)) == (256 * Pow256(m - 1)) * Pow256(n);
    }
  }

  // Two adjacent size fields changed only in the last 4 - k bytes of the
  // first and the first k bytes of the second cannot keep the same sum.
  lemma SizesCannotTrade(d: seq<Byte>, i: seq<Byte>, d0: seq<Byte>, i0: seq<Byte>, k: nat)
    requires |d| == |i| == |d0| == |i0| == 4 && k <= 4
    requires d[..k] == d0[..k] && i[k..] == i0[k..]
    requires SumsMeet(Change(d, d0), Change(i, i0), 0x1_0000_0000)
    ensures d == d0 && i == i0
  {
    hide *;
    var p, m := PowProduct(k);
    LowPartChanged(d, d0, k, p);
    var e := HighPartChanged(i, i0, k, p);
    SumModulo(Change(d, d0), Change(i, i0), p, e, m, 0x1_0000_0000);
    NoChange(d, d0);
    NoChange(i, i0);
  }

  function Change(a: seq<Byte>, b: seq<Byte>): int
  {
    Unsigned(a) - Unsigned(b)
  }

  lemma NoChange(a: seq<Byte>, b: seq<Byte>)
    requires |a| == |b| && Change(a, b) == 0
    ensures a == b
  {
    UnsignedInjective(a, b);
  }

  lemma PowProduct(k: nat) returns (p: int, m: int)
    requires k <= 4
    ensures p == Pow256(4 - k) >= 1 && m >= 1 && IsProduct(0x1_0000_0000, p, m)
  {
    p, m := Pow256(4 - k), Pow256(k);
    PowAdd(4 - k, k);
    Pow256Values();
  }

  lemma LowPartChanged(d: seq<Byte>, d0: seq<Byte>, k: nat, p: int)
    requires |d| == |d0| == 4 && k <= 4 && d[..k] == d0[..k] && p == Pow256(4 - k)
    ensures -p < Change(d, d0) < p
  {
    hide Unsigned, Pow256;
    SplitField(d, k);
    SplitField(d0, k);
  }

  lemma HighPartChanged(i: seq<Byte>, i0: seq<Byte>, k: nat, p: int) returns (e: int)
    requires |i| == |i0| == 4 && k <= 4 && i[k..] == i0[k..] && p == Pow256(4 - k)
    ensures IsProduct(Change(i, i0), e, p)
    ensures -0x1_0000_0000 < Change(i, i0) < 0x1_0000_0000
  {
    SmallFieldIsUnsigned(i);
    SmallFieldIsUnsigned(i0);
    hide Unsigned, Pow256;
    SplitField(i, k);
    SplitField(i0, k);
    e := Unsigned(i[..k]) - Unsigned(i0[..k]);
    Distribute(Unsigned(i[..k]), Unsigned(i0[..k]), p);
  }

  lemma Distribute(a: int, b: int, p: int)
    ensures a * p - b * p == (a - b) * p
  {
  }

  lemma SplitField(f: seq<Byte>, k: nat)
    requires k <= |f|
    ensures Unsigned(f) == Unsigned(f[..k]) * Pow256(|f| - k) + Unsigned(f[k..])
    ensures 0 <= Unsigned(f[k..]) < Pow256(|f| - k)
  {
    hide *;
    assert f == f[..k] + f[k..];
    UnsignedConcat(f[..k], f[k..]);
    UnsignedBound(f[k..]);
  }

  lemma {:induction false} UnsignedBound(s: seq<Byte>)
    ensures 0 <= Unsigned(s) < Pow256(|s|)
    decreases |s|
  {
    hide *;
    UnsignedLast(s);
    if s != [] {
      UnsignedBound(Init(s));
    }
  }

  lemma SignedSumModulo(d: seq<Byte>, i: seq<Byte>)
    requires |d| == |i| == 4
    ensures (16 + Signed(d) + Signed(i)) % 0x1_0000_0000 == (16 + Unsigned(d) + Unsigned(i)) % 0x1_0000_0000
  {
    SmallFieldIsUnsigned(d);
    SmallFieldIsUnsigned(i);
    hide Signed, Unsigned;
    var n := 0x1_0000_0000;
    var x, q := 16 + Signed(d) + Signed(i), (Unsigned(d) - Signed(d)) / n + (Unsigned(i) - Signed(i)) / n;
    ModUnique(16 + Unsigned(d) + Unsigned(i), n, x / n + q, x % n);
  }

  lemma AcceptedFields(s: seq<Byte>)
    requires |s| >= 16
    ensures HeaderOf(s) == IndexFileHeader(Unsigned(s[0..4]), Unsigned(s[4..8]), Signed(s[8..12]), Signed(s[12..16]))
    ensures HeaderAccepted(s) <==>
            Unsigned(s[0..4]) == 0xCAFE_F00D && |s| == (16 + Signed(s[8..12]) + Signed(s[12..16])) % 0x1_0000_0000
    ensures Accepted(s, true) <==>
            HeaderAccepted(s) &&
            Unsigned(s[4..8]) == ToNat(Crc32Of(if LeftToRead(HeaderOf(s)) <= 0 then [] else s[16..]))
  {
    hide Signed, Unsigned, LeftToRead, ToNat, Crc32Of;
    assert s[..16][..4] == s[0..4] && s[..16][4..8] == s[4..8];
    assert s[..16][8..12] == s[8..12] && s[..16][12..] == s[12..16];
  }

  lemma WindowField(a: seq<Byte>, b: seq<Byte>, at: int, lo: nat, hi: nat)
    requires AgreeOutside(a, b, at) && lo <= hi <= |a| && (lo == hi || at + 4 <= lo || hi <= at)
    ensures a[lo..hi] == b[lo..hi]
  {
    forall i | lo <= i < hi
      ensures a[i] == b[i]
    {
    }
  }

  // Same length and both accepted: the size fields agree.
  lemma SizeFieldsAgree(a: seq<Byte>, b: seq<Byte>, at: int)
    requires AgreeOutside(a, b, at) && |a| >= 16 && HeaderAccepted(a) && HeaderAccepted(b)
    ensures a[8..12] == b[8..12] && a[12..16] == b[12..16]
  {
    hide *;
    SameLength(a, b, at);
    AcceptedFields(a);
    AcceptedFields(b);
    SignedSumModulo(a[8..12], a[12..16]);
    SignedSumModulo(b[8..12], b[12..16]);
    var k: nat := if at <= 8 then 0 else if at < 12 then at - 8 else 4;
    WindowPart(a, b, at, k);
    SumsCancel(a[8..12], a[12..16], b[8..12], b[12..16]);
    SizesCannotTrade(a[8..12], a[12..16], b[8..12], b[12..16], k);
  }

  lemma WindowPart(a: seq<Byte>, b: seq<Byte>, at: int, k: nat)
    requires AgreeOutside(a, b, at) && |a| >= 16
    requires k == if at <= 8 then 0 else if at < 12 then at - 8 else 4
    ensures a[8..12][..k] == b[8..12][..k] && a[12..16][k..] == b[12..16][k..]
  {
    WindowField(a, b, at, 8, 8 + k);
    WindowField(a, b, at, 12 + k, 16);
    assert a[8..12][..k] == a[8..8 + k] && b[8..12][..k] == b[8..8 + k];
    assert a[12..16][k..] == a[12 + k..16] && b[12..16][k..] == b[12 + k..16];
  }

  lemma SumsCancel(d: seq<Byte>, i: seq<Byte>, d0: seq<Byte>, i0: seq<Byte>)
    requires (16 + Unsigned(d) + Unsigned(i)) % 0x1_0000_0000 == (16 + Unsigned(d0) + Unsigned(i0)) % 0x1_0000_0000
    ensures SumsMeet(Change(d, d0), Change(i, i0), 0x1_0000_0000)
  {
    hide Unsigned;
    var q := SameRemainder(16 + Unsigned(d) + Unsigned(i), 16 + Unsigned(d0) + Unsigned(i0), 0x1_0000_0000);
    ModUnique(Change(d, d0) + Change(i, i0), 0x1_0000_0000, q, 0);
  }

  // Two accepted files that differ only within four consecutive bytes are the same file.
  lemma AcceptedNeighboursEqual(a: seq<Byte>, b: seq<Byte>, at: int)
    requires AgreeOutside(a, b, at) && |a| >= 16 && LeftToRead(HeaderOf(a)) > 0
    requires Accepted(a, true) && Accepted(b, true)
    ensures a == b
  {
    hide *;
    SameLength(a, b, at);
    AcceptedFields(a);
    AcceptedFields(b);
    SizeFieldsAgree(a, b, at);
    LeftToReadValue(HeaderOf(a));
    LeftToReadValue(HeaderOf(b));
    UnsignedInjective(a[0..4], b[0..4]);
    BodyAgrees(a, b, at);
    if at + 4 <= 4 || 8 <= at {
      WindowField(a, b, at, 4, 8);
    } else {
      WindowField(a, b, at, 16, |a|);
      assert a[16..] == a[16..|a|] && b[16..] == b[16..|b|];
      UnsignedInjective(a[4..8], b[4..8]);
    }
    BurstChangesCrc(a[16..], b[16..], at - 16);
    ToNatInjective(Crc32Of(a[16..]), Crc32Of(b[16..]));
    JoinFields(a);
    JoinFields(b);
  }

  lemma SameLength(a: seq<Byte>, b: seq<Byte>, at: int)
    requires AgreeOutside(a, b, at)
    ensures |a| == |b|
  {
  }

  lemma BodyAgrees(a: seq<Byte>, b: seq<Byte>, at: int)
    requires AgreeOutside(a, b, at) && |a| >= 16
    ensures AgreeOutside(a[16..], b[16..], at - 16)
  {
  }

  lemma LeftToReadValue(h: IndexFileHeader)
    ensures LeftToRead(h) == ToSigned(h.doctableBytes + h.indexBytes, 4)
  {
  }

  lemma ToNatInjective(a: Word, b: Word)
    requires ToNat(a) == ToNat(b)
    ensures a == b
  {
    ToBitsOfNat(a);
    ToBitsOfNat(b);
  }

  lemma JoinFields(s: seq<Byte>)
    requires |s| >= 16
    ensures s == s[0..4] + s[4..8] + s[8..12] + s[12..16] + s[16..]
  {
  }

  // A finished index in which anything changed within four consecutive bytes,
  // header included, is accepted only if it did not change.
  lemma DamageNoticed(dt: Table<Value>, mi: Table<Value>, damaged: seq<Byte>, at: int)
    requires HEADER_SIZE + TableSize(dt) + TableSize(mi) <= MAX_INT32
    requires AgreeOutside(IndexBytes(dt, mi), damaged, at)
    ensures Accepted(damaged, true) <==> damaged == IndexBytes(dt, mi)
  {
    hide *;
    HeaderSizeValue();
    HeaderLimits();
    TableSizePositive(dt);
    TableSizePositive(mi);
    var s := IndexBytes(dt, mi);
    WrittenHeader(dt, mi);
    WrittenIndexAccepted(dt, mi, true);
    HeaderForValue(TablesBytes(dt, mi), TableSize(dt), TableSize(mi));
    if Accepted(damaged, true) {
      WrittenLeft(HeaderOf(s));
      AcceptedNeighboursEqual(s, damaged, at);
    }
  }

  lemma WrittenLeft(h: IndexFileHeader)
    requires 1 <= h.doctableBytes + h.indexBytes <= 0x7FFF_FFFF
    ensures LeftToRead(h) > 0
  {
    var n := h.doctableBytes + h.indexBytes;
    Pow256Values();
    ModUnique(n, 0x1_0000_0000, 0, n);
  }

  // ----- exactly which headers are accepted -----

  // Two numbers of bytes behind the header that give a file of the same length.
  lemma SizesMeet(sum: int, n: int)
    requires 0 < n && 16 + n <= 0x7FFF_FFFF
    ensures 16 + n == (16 + sum) % 0x1_0000_0000 <==> (sum - n) % 0x1_0000_0000 == 0
    ensures (sum - n) % 0x1_0000_0000 == 0 ==> ToSigned(sum, 4) == n
  {
    Pow256Values();
    var m := 0x1_0000_0000;
    if 16 + n == (16 + sum) % m {
      ModUnique(sum - n, m, (16 + sum) / m, 0);
    }
    if (sum - n) % m == 0 {
      var q := (sum - n) / m;
      ModUnique(16 + sum, m, q, 16 + n);
      ModUnique(sum, m, q, n);
    }
  }

  // The fields of a header that was put in front of a body.
  lemma NewHeaderFields(header: seq<Byte>, body: seq<Byte>)
    requires |header| == 16
    ensures var s := header + body;
            && s[16..] == body && s[0..4] == header[0..4] && s[4..8] == header[4..8]
            && s[8..12] == header[8..12] && s[12..16] == header[12..16]
    ensures header[0..8] == header[0..4] + header[4..8]
  {
  }

  // With the tables left as they are, the reader accepts a header exactly when its
  // magic number and checksum are the right ones and its sizes add up, as numbers of
  // 32 bits, to the right length.  Nothing else about the two sizes is checked.
  lemma HeaderAcceptedIff(dt: Table<Value>, mi: Table<Value>, header: seq<Byte>)
    requires HEADER_SIZE + TableSize(dt) + TableSize(mi) <= MAX_INT32 && |header| == 16
    ensures var s := IndexBytes(dt, mi);
            |s| >= 16 &&
            (Accepted(header + s[16..], true) <==>
             && header[0..8] == s[0..8]
             && (Signed(header[8..12]) + Signed(header[12..16]) - TableSize(dt) - TableSize(mi)) % 0x1_0000_0000 == 0)
  {
    hide *;
    HeaderSizeValue();
    HeaderLimits();
    TableSizePositive(dt);
    TableSizePositive(mi);
    WrittenHeader(dt, mi);
    WrittenIndexAccepted(dt, mi, true);
    var body, n := TablesBytes(dt, mi), TableSize(dt) + TableSize(mi);
    HeaderForValue(body, TableSize(dt), TableSize(mi));
    var s, t := IndexBytes(dt, mi), header + body;
    var sum := Signed(header[8..12]) + Signed(header[12..16]);
    NewHeaderFields(header, body);
    NewHeaderFields(s[..16], body);
    assert s == s[..16] + body;
    AcceptedFields(s);
    AcceptedFields(t);
    LeftToReadValue(HeaderOf(s));
    LeftToReadValue(HeaderOf(t));
    SizesMeet(n, n);
    SizesMeet(sum, n);
    if Unsigned(header[0..4]) == Unsigned(s[0..4]) {
      UnsignedInjective(header[0..4], s[0..4]);
    }
    if Unsigned(header[4..8]) == Unsigned(s[4..8]) {
      UnsignedInjective(header[4..8], s[4..8]);
    }
    assert header[0..8] == s[0..8] <==> header[0..4] == s[0..4] && header[4..8] == s[4..8] by {
      assert header[0..8][..4] == header[0..4] && s[0..8][..4] == s[0..4];
      assert header[0..8][4..] == header[4..8] && s[0..8][4..] == s[4..8];
    }
  }

  // The sizes in the header are not checksummed: a file whose size fields are
  // both wrong, but by opposite amounts, is accepted.
  lemma TradedSizesAccepted(dt: Table<Value>, mi: Table<Value>)
    requires HEADER_SIZE + TableSize(dt) + TableSize(mi) <= MAX_INT32
    ensures var body := TablesBytes(dt, mi);
            var damaged := HeaderFor(body, TableSize(dt) + 1, TableSize(mi) - 1).ToDisk() + body;
            Accepted(damaged, true) && damaged != IndexBytes(dt, mi)
  {
    hide *;
    HeaderSizeValue();
    HeaderLimits();
    TableSizePositive(dt);
    TableSizePositive(mi);
    WrittenHeader(dt, mi);
    var body := TablesBytes(dt, mi);
    var h := HeaderFor(body, TableSize(dt) + 1, TableSize(mi) - 1);
    HeaderForValue(body, TableSize(dt) + 1, TableSize(mi) - 1);
    HeaderForValue(body, TableSize(dt), TableSize(mi));
    HeaderRoundTrip(h, body);
    HeaderAndBody(h, body);
    SizesAccepted(h.ToDisk() + body, h, body, true);
  }

  lemma HeaderAndBody(h: IndexFileHeader, body: seq<Byte>)
    ensures HeaderOf(h.ToDisk() + body) == IndexFileHeader.FromDisk(h.ToDisk())
    ensures (h.ToDisk() + body)[16..] == body
  {
    assert (h.ToDisk() + body)[..16] == h.ToDisk();
  }
}
