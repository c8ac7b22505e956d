/**
 The packed records of the index file and their byte order
 (hw3/LayoutStructs.h, hw3/Utils.h).
 */
module LayoutStructs {
  import opened Common

  const MAX_INT16: int := 0x7FFF
  const MAX_INT32: int := 0x7FFF_FFFF

  function Pow256(n: nat): (p: int)
    ensures p >= 1
  {
    if n == 0 then 1 else 256 * Pow256(n - 1)
  }

  // The n low-order bytes of x, two's complement, most significant byte first.
  function BigEndian(x: int, n: nat): (bs: seq<Byte>)
    ensures |bs| == n
    decreases n, x
  {
    if n == 0 then [] else BigEndian(x / 256, n - 1) + [x % 256]
  }

  // The same bytes as a little-endian host keeps them in memory.
  function LittleEndian(x: int, n: nat): (bs: seq<Byte>)
    ensures |bs| == n
    decreases n, x
  {
    if n == 0 then [] else [x % 256] + LittleEndian(x / 256, n - 1)
  }

  function Unsigned(bs: seq<Byte>): (u: int)
    ensures u >= 0
  {
    if bs == [] then 0 else 256 * Unsigned(Init(bs)) + Last(bs)
  }

  // The value of an n-byte signed field whose bits are those of u.
  function Wrap(u: int, n: nat): int
  {
    if 2 * u < Pow256(n) then u else u - Pow256(n)
  }

  function Signed(bs: seq<Byte>): int
  {
    Wrap(Unsigned(bs), |bs|)
  }

  // A cast to an n-byte signed integer.
  function ToSigned(x: int, n: nat): int
  {
    Wrap(x % Pow256(n), n)
  }

  predicate FitsSigned(x: int, n: nat)
  {
    -Pow256(n) <= 2 * x < Pow256(n)
  }

  // ----- arithmetic -----

  lemma ModUnique(x: int, m: int, q: int, r: int)
    requires m >= 1 && 0 <= r < m && x == q * m + r
    ensures x / m == q && x % m == r
  {
    var d := x / m - q;
    assert d * m == r - x % m by {
      assert (x / m) * m - q * m == d * m;
    }
    assert d >= 1 ==> d * m >= m;
    assert d <= -1 ==> d * m <= -m;
  }

  lemma ModStep(x: int, p: int)
    requires p >= 1
    ensures 256 * ((x / 256) % p) + x % 256 == x % (256 * p)
  {
    var q, r := (x / 256) / p, (x / 256) % p;
    var rest := 256 * r + x % 256;
    assert x == q * (256 * p) + rest by {
      assert 256 * (q * p) == q * (256 * p);
    }
    ModUnique(x, 256 * p, q, rest);
  }

  lemma Pow256Values()
    ensures Pow256(2) == 0x1_0000
    ensures Pow256(4) == 0x1_0000_0000
    ensures Pow256(8) == 0x1_0000_0000_0000_0000
  {
    assert Pow256(8) == 0x1_0000 * Pow256(6) == 0x1_0000_0000 * Pow256(4);
    assert Pow256(4) == 0x1_0000 * Pow256(2);
  }

  // Offsets that fit are not changed by a cast.
  lemma SignedOffset(x: int)
    requires 0 <= x <= MAX_INT32
    ensures ToSigned(x, 4) == x
  {
    Pow256Values();
  }

  // ----- one field -----

  lemma {:induction false} UnsignedOfBigEndian(x: int, n: nat)
    ensures Unsigned(BigEndian(x, n)) == x % Pow256(n)
    decreases n
  {
    if n == 0 {
    } else {
      UnsignedOfBigEndian(x / 256, n - 1);
      assert Init(BigEndian(x, n)) == BigEndian(x / 256, n - 1);
      ModStep(x, Pow256(n - 1));
    }
  }

  lemma {:induction false} BigEndianOfUnsigned(bs: seq<Byte>)
    ensures BigEndian(Unsigned(bs), |bs|) == bs
    ensures Unsigned(bs) < Pow256(|bs|)
  {
    if bs == [] {
    } else {
      BigEndianOfUnsigned(Init(bs));
      ModUnique(Unsigned(bs), 256, Unsigned(Init(bs)), Last(bs));
    }
  }

  // A signed field reads back as its cast; it is unchanged exactly when the
  // value fits the field.
  lemma SignedRoundTrip(x: int, n: nat)
    ensures Signed(BigEndian(x, n)) == ToSigned(x, n)
    ensures Signed(BigEndian(x, n)) == x <==> FitsSigned(x, n)
  {
    UnsignedOfBigEndian(x, n);
    var p := Pow256(n);
    if FitsSigned(x, n) {
      if x >= 0 {
        ModUnique(x, p, 0, x);
      } else {
        ModUnique(x, p, -1, x + p);
      }
    }
  }

  lemma UnsignedRoundTrip(x: int, n: nat)
    ensures Unsigned(BigEndian(x, n)) == x % Pow256(n)
    ensures Unsigned(BigEndian(x, n)) == x <==> 0 <= x < Pow256(n)
  {
    UnsignedOfBigEndian(x, n);
    if 0 <= x < Pow256(n) {
      ModUnique(x, Pow256(n), 0, x);
    }
  }

  // ----- byte swapping on a little-endian host -----

  // htonl and ntohl: the four bytes of a 32-bit value in reverse order.
  function SwapLong(x: int): int
  {
    Unsigned(LittleEndian(x, 4))
  }

  // The htonll and ntohll macros: each half swapped, then the halves exchanged.
  function SwapLongLong(x: int): int
  {
    SwapLong(x % 0x1_0000_0000) * 0x1_0000_0000 + SwapLong(x / 0x1_0000_0000)
  }

  function Reverse<T>(s: seq<T>): (r: seq<T>)
    ensures |r| == |s|
    ensures forall i :: 0 <= i < |s| ==> r[i] == s[|s| - 1 - i]
  {
    if s == [] then [] else [Last(s)] + Reverse(Init(s))
  }

  lemma {:induction false} LittleIsReverse(x: int, n: nat)
    ensures LittleEndian(x, n) == Reverse(BigEndian(x, n))
    decreases n
  {
    if n == 0 {
    } else {
      LittleIsReverse(x / 256, n - 1);
      assert Init(BigEndian(x, n)) == BigEndian(x / 256, n - 1);
    }
  }

  // Storing a swapped 32-bit value writes the big-endian bytes.
  lemma SwapLongImage(x: int)
    ensures LittleEndian(SwapLong(x), 4) == BigEndian(x, 4)
  {
    SwapImage(x, 4);
  }

  lemma SwapImage(x: int, n: nat)
    ensures LittleEndian(Unsigned(LittleEndian(x, n)), n) == BigEndian(x, n)
  {
    LittleIsReverse(Unsigned(LittleEndian(x, n)), n);
    BigEndianOfUnsigned(LittleEndian(x, n));
    LittleIsReverse(x, n);
  }

  lemma {:induction false} LittleEndianSplit(hi: int, lo: int, m: nat, n: nat)
    requires 0 <= lo < Pow256(n)
    ensures LittleEndian(hi * Pow256(n) + lo, n + m) == LittleEndian(lo, n) + LittleEndian(hi, m)
    decreases n
  {
    if n == 0 {
    } else {
      var p := Pow256(n - 1);
      var x := hi * Pow256(n) + lo;
      assert x == 256 * (hi * p) + lo by {
        assert hi * (256 * p) == 256 * (hi * p);
      }
      assert x / 256 == hi * p + lo / 256 && x % 256 == lo % 256;
      LittleEndianSplit(hi, lo / 256, m, n - 1);
    }
  }

  // Storing a 64-bit value swapped by the macro writes its big-endian bytes,
  // and the macro undoes itself.
  lemma SwapLongLongImage(x: Key)
    ensures LittleEndian(SwapLongLong(x), 8) == BigEndian(x, 8)
    ensures SwapLongLong(SwapLongLong(x)) == x
  {
    SwapLongLongIsBigEndian(x);
    var y := SwapLongLong(x);
    var hi, lo := x / 0x1_0000_0000, x % 0x1_0000_0000;
    SwapTwice(hi);
    SwapTwice(lo);
    ModUnique(y, 0x1_0000_0000, SwapLong(lo), SwapLong(hi));
  }

  lemma SwapTwice(x: int)
    requires 0 <= x < 0x1_0000_0000
    ensures SwapLong(SwapLong(x)) == x
    ensures SwapLong(x) < 0x1_0000_0000
  {
    Pow256Values();
    SwapLongImage(x);
    UnsignedRoundTrip(x, 4);
    BigEndianOfUnsigned(LittleEndian(x, 4));
  }

  lemma {:induction false} BigEndianSplit(hi: int, lo: int, m: nat, n: nat)
    requires 0 <= lo < Pow256(n)
    ensures BigEndian(hi * Pow256(n) + lo, n + m) == BigEndian(hi, m) + BigEndian(lo, n)
    decreases n
  {
    if n == 0 {
    } else {
      var p := Pow256(n - 1);
      var x := hi * Pow256(n) + lo;
      assert x == 256 * (hi * p) + lo by {
        assert hi * (256 * p) == 256 * (hi * p);
      }
      assert x / 256 == hi * p + lo / 256 && x % 256 == lo % 256;
      BigEndianSplit(hi, lo / 256, m, n - 1);
    }
  }

  // Swapping both halves of a 2n-byte value and exchanging them swaps the whole.
  lemma SwapHalves(hi: int, lo: int, n: nat)
    requires 0 <= lo < Pow256(n)
    ensures LittleEndian(Unsigned(LittleEndian(lo, n)) * Pow256(n) + Unsigned(LittleEndian(hi, n)), n + n)
         == BigEndian(hi * Pow256(n) + lo, n + n)
  {
    hide *;
    var a, b := Unsigned(LittleEndian(lo, n)), Unsigned(LittleEndian(hi, n));
    BigEndianOfUnsigned(LittleEndian(hi, n));
    LittleEndianSplit(a, b, n, n);
    SwapImage(lo, n);
    SwapImage(hi, n);
    BigEndianSplit(hi, lo, n, n);
  }

  lemma SwapLongLongIsBigEndian(x: Key)
    ensures LittleEndian(SwapLongLong(x), 8) == BigEndian(x, 8)
  {
    var hi, lo := x / 0x1_0000_0000, x % 0x1_0000_0000;
    assert Pow256(4) == 0x1_0000_0000 by { Pow256Values(); }
    SwapHalves(hi, lo, 4);
  }

  // ----- records -----

  datatype IndexFileHeader = IndexFileHeader(magicNumber: int, checksum: int, doctableBytes: int, indexBytes: int) {
    function ToDisk(): (bs: seq<Byte>)
      ensures |bs| == 16
    {
      BigEndian(magicNumber, 4) + BigEndian(checksum, 4) + BigEndian(doctableBytes, 4) + BigEndian(indexBytes, 4)
    }

    static function FromDisk(bs: seq<Byte>): IndexFileHeader
      requires |bs| == 16
    {
      IndexFileHeader(Unsigned(bs[..4]), Unsigned(bs[4..8]), Signed(bs[8..12]), Signed(bs[12..]))
    }
  }

  datatype BucketRecord = BucketRecord(chainNumElements: int, position: int) {
    function ToDisk(): (bs: seq<Byte>)
      ensures |bs| == 8
    {
      BigEndian(chainNumElements, 4) + BigEndian(position, 4)
    }

    static function FromDisk(bs: seq<Byte>): BucketRecord
      requires |bs| == 8
    {
      BucketRecord(Signed(bs[..4]), Signed(bs[4..]))
    }
  }

  datatype DoctableElementHeader = DoctableElementHeader(docId: int, fileNameBytes: int) {
    function ToDisk(): (bs: seq<Byte>)
      ensures |bs| == 10
    {
      BigEndian(docId, 8) + BigEndian(fileNameBytes, 2)
    }

    static function FromDisk(bs: seq<Byte>): DoctableElementHeader
      requires |bs| == 10
    {
      DoctableElementHeader(Unsigned(bs[..8]), Signed(bs[8..]))
    }
  }

  datatype WordPostingsHeader = WordPostingsHeader(wordBytes: int, postingsBytes: int) {
    function ToDisk(): (bs: seq<Byte>)
      ensures |bs| == 6
    {
      BigEndian(wordBytes, 2) + BigEndian(postingsBytes, 4)
    }

    static function FromDisk(bs: seq<Byte>): WordPostingsHeader
      requires |bs| == 6
    {
      WordPostingsHeader(Signed(bs[..2]), Signed(bs[2..]))
    }
  }

  datatype DocIDElementHeader = DocIDElementHeader(docId: int, numPositions: int) {
    function ToDisk(): (bs: seq<Byte>)
      ensures |bs| == 12
    {
      BigEndian(docId, 8) + BigEndian(numPositions, 4)
    }

    static function FromDisk(bs: seq<Byte>): DocIDElementHeader
      requires |bs| == 12
    {
      DocIDElementHeader(Unsigned(bs[..8]), Signed(bs[8..]))
    }
  }

  // ----- which bytes are whose -----

  // Byte i of n is the digit to the base 256 that has n - 1 - i digits behind it.
  lemma {:induction false} BigEndianAt(x: int, n: nat, i: nat)
    requires i < n
    ensures BigEndian(x, n)[i] == (x / Pow256(n - 1 - i)) % 256
    decreases n
  {
    if i < n - 1 {
      BigEndianAt(x / 256, n - 1, i);
      var p := Pow256(n - 2 - i);
      QuotientOfQuotient(x, p);
    }
  }

  lemma QuotientOfQuotient(x: int, p: int)
    requires p >= 1
    ensures (x / 256) / p == x / (256 * p)
  {
    ModStep(x, p);
    var q, q' := (x / 256) / p, x / (256 * p);
    assert x == q * (256 * p) + (256 * ((x / 256) % p) + x % 256) by {
      assert 256 * (q * p) == q * (256 * p);
    }
    ModUnique(x, 256 * p, q, 256 * ((x / 256) % p) + x % 256);
  }

  // The most significant byte comes first, and carries the sign.
  lemma FourBytes()
    ensures BigEndian(0x0102_0304, 4) == [1, 2, 3, 4] && BigEndian(-2, 4) == [0xFF, 0xFF, 0xFF, 0xFE]
    ensures Signed([1, 2, 3, 4]) == 0x0102_0304 && Signed([0xFF, 0xFF, 0xFF, 0xFE]) == -2
  {
    Pow256Values();
    BigEndianSplit(0x0102, 0x0304, 2, 2);
    TwoBytes(1, 2);
    TwoBytes(3, 4);
    BigEndianSplit(-1, 0xFFFE, 2, 2);
    TwoBytes(-1, 0xFF);
    TwoBytes(0xFF, 0xFE);
    SignedRoundTrip(0x0102_0304, 4);
    SignedRoundTrip(-2, 4);
  }

  lemma TwoBytes(hi: int, lo: Byte)
    ensures BigEndian(256 * hi + lo, 2) == [hi % 256, lo]
  {
    assert BigEndian(256 * hi + lo, 2) == BigEndian(hi, 1) + [lo];
    assert BigEndian(hi, 1) == BigEndian(hi / 256, 0) + [hi % 256];
  }

  // Every field of a record has its own place and width, and a record reads back as
  // written exactly when its fields fit.

  lemma IndexFileHeaderRoundTrip(h: IndexFileHeader)
    ensures var bs := h.ToDisk();
            && Unsigned(bs[..4]) == h.magicNumber % Pow256(4) && Unsigned(bs[4..8]) == h.checksum % Pow256(4)
            && Signed(bs[8..12]) == ToSigned(h.doctableBytes, 4) && Signed(bs[12..]) == ToSigned(h.indexBytes, 4)
    ensures IndexFileHeader.FromDisk(h.ToDisk()) == h <==>
            (0 <= h.magicNumber < 0x1_0000_0000 && 0 <= h.checksum < 0x1_0000_0000 &&
             FitsSigned(h.doctableBytes, 4) && FitsSigned(h.indexBytes, 4))
  {
    var bs := h.ToDisk();
    assert bs[..4] == BigEndian(h.magicNumber, 4) && bs[4..8] == BigEndian(h.checksum, 4);
    assert bs[8..12] == BigEndian(h.doctableBytes, 4) && bs[12..] == BigEndian(h.indexBytes, 4);
    Pow256Values();
    UnsignedRoundTrip(h.magicNumber, 4);
    UnsignedRoundTrip(h.checksum, 4);
    SignedRoundTrip(h.doctableBytes, 4);
    SignedRoundTrip(h.indexBytes, 4);
  }

  lemma BucketRecordRoundTrip(r: BucketRecord)
    ensures var bs := r.ToDisk();
            Signed(bs[..4]) == ToSigned(r.chainNumElements, 4) && Signed(bs[4..]) == ToSigned(r.position, 4)
    ensures BucketRecord.FromDisk(r.ToDisk()) == r <==>
            FitsSigned(r.chainNumElements, 4) && FitsSigned(r.position, 4)
  {
    var bs := r.ToDisk();
    assert bs[..4] == BigEndian(r.chainNumElements, 4) && bs[4..] == BigEndian(r.position, 4);
    SignedRoundTrip(r.chainNumElements, 4);
    SignedRoundTrip(r.position, 4);
  }

  lemma DoctableElementHeaderRoundTrip(h: DoctableElementHeader)
    ensures var bs := h.ToDisk();
            Unsigned(bs[..8]) == h.docId % Pow256(8) && Signed(bs[8..]) == ToSigned(h.fileNameBytes, 2)
    ensures DoctableElementHeader.FromDisk(h.ToDisk()) == h <==>
            0 <= h.docId < Pow256(8) && FitsSigned(h.fileNameBytes, 2)
  {
    var bs := h.ToDisk();
    assert bs[..8] == BigEndian(h.docId, 8) && bs[8..] == BigEndian(h.fileNameBytes, 2);
    UnsignedRoundTrip(h.docId, 8);
    SignedRoundTrip(h.fileNameBytes, 2);
  }

  lemma WordPostingsHeaderRoundTrip(h: WordPostingsHeader)
    ensures var bs := h.ToDisk();
            Signed(bs[..2]) == ToSigned(h.wordBytes, 2) && Signed(bs[2..]) == ToSigned(h.postingsBytes, 4)
    ensures WordPostingsHeader.FromDisk(h.ToDisk()) == h <==>
            FitsSigned(h.wordBytes, 2) && FitsSigned(h.postingsBytes, 4)
  {
    var bs := h.ToDisk();
    assert bs[..2] == BigEndian(h.wordBytes, 2) && bs[2..] == BigEndian(h.postingsBytes, 4);
    SignedRoundTrip(h.wordBytes, 2);
    SignedRoundTrip(h.postingsBytes, 4);
  }

  lemma DocIDElementHeaderRoundTrip(h: DocIDElementHeader)
    ensures var bs := h.ToDisk();
            Unsigned(bs[..8]) == h.docId % Pow256(8) && Signed(bs[8..]) == ToSigned(h.numPositions, 4)
    ensures DocIDElementHeader.FromDisk(h.ToDisk()) == h <==>
            0 <= h.docId < Pow256(8) && FitsSigned(h.numPositions, 4)
  {
    var bs := h.ToDisk();
    assert bs[..8] == BigEndian(h.docId, 8) && bs[8..] == BigEndian(h.numPositions, 4);
    UnsignedRoundTrip(h.docId, 8);
    SignedRoundTrip(h.numPositions, 4);
  }
}
