/**
 The CRC-32 used as the index file's checksum (hw3/Utils.cc), against the
 bit-by-bit definition of section 8 of RFC 1952.

 A machine word is the sequence of its bits, least significant bit first.
 */
module Crc {
  import opened Common

  type Bits = seq<bool>
  type Word = w: Bits | |w| == 32 witness ZeroBits(32)

  function ZeroBits(n: nat): (z: Bits)
    ensures |z| == n
    ensures forall i :: 0 <= i < n ==> !z[i]
  {
    seq(n, _ => false)
  }

  function Xor(a: Bits, b: Bits): (r: Bits)
    requires |a| == |b|
    ensures |r| == |a|
    ensures forall i :: 0 <= i < |a| ==> r[i] == (a[i] != b[i])
  {
    seq(|a|, i requires 0 <= i < |a| => a[i] != b[i])
  }

  function Reverse(a: Bits): (r: Bits)
    ensures |r| == |a|
    ensures forall i :: 0 <= i < |a| ==> r[i] == a[|a| - 1 - i]
  {
    seq(|a|, i requires 0 <= i < |a| => a[|a| - 1 - i])
  }

  // a >> n and a << n on words of any width.
  function ShiftRight(a: Bits, n: nat): (r: Bits)
    requires n <= |a|
    ensures |r| == |a|
  {
    a[n..] + ZeroBits(n)
  }

  function ShiftLeft(a: Bits, n: nat): (r: Bits)
    requires n <= |a|
    ensures |r| == |a|
  {
    ZeroBits(n) + a[..|a| - n]
  }

  // The n low-order bits of x.
  function ToBits(x: nat, n: nat): (r: Bits)
    ensures |r| == n
    decreases n, x
  {
    if n == 0 then [] else [x % 2 == 1] + ToBits(x / 2, n - 1)
  }

  function ToNat(a: Bits): nat
  {
    if a == [] then 0 else (if a[0] then 1 else 0) + 2 * ToNat(a[1..])
  }

  function Power2(n: nat): (p: nat)
    ensures p >= 1
  {
    if n == 0 then 1 else 2 * Power2(n - 1)
  }

  lemma {:induction false} Power2Add(m: nat, n: nat)
    ensures Power2(m + n) == Power2(m) * Power2(n)
  {
    if m > 0 {
      Power2Add(m - 1, n);
    }
  }

  lemma Power2Values()
    ensures Power2(8) == 0x100 && Power2(32) == 0x1_0000_0000
  {
    Power2Add(4, 4);
    Power2Add(8, 8);
    Power2Add(16, 16);
  }

  lemma {:induction false} ToBitsOfNat(a: Bits)
    ensures ToNat(a) < Power2(|a|) && ToBits(ToNat(a), |a|) == a
  {
    if a != [] {
      ToBitsOfNat(a[1..]);
    }
  }

  lemma {:induction false} ToNatOfBits(x: nat, n: nat)
    requires x < Power2(n)
    ensures ToNat(ToBits(x, n)) == x
    decreases n
  {
    if n > 0 {
      ToNatOfBits(x / 2, n - 1);
      assert ToBits(x, n)[1..] == ToBits(x / 2, n - 1);
    }
  }

  // ----- the bit-by-bit definition -----

  // The polynomial 0xEDB88320.
  const POLYNOMIAL: Bits :=
    [false, false, false, false, false, true, false, false] + [true, true, false, false, false, false, false, true]
    + [false, false, false, true, true, true, false, true] + [true, false, true, true, false, true, true, true]

  function Ones(): (z: Word)
    ensures forall i :: 0 <= i < 32 ==> z[i]
  {
    seq(32, _ => true)
  }

  // One step of the division: shift a bit out, subtract the polynomial if it was 1.
  function Step(c: Word): Word
  {
    var h := ShiftRight(c, 1);
    if c[0] then Xor(h, POLYNOMIAL) else h
  }

  function Steps(c: Word, n: nat): Word
  {
    if n == 0 then c else Step(Steps(c, n - 1))
  }

  // Add one message bit at the low end of the register, then divide.
  function FeedBit(c: Word, bit: bool): Word
  {
    Step([c[0] != bit] + c[1..])
  }

  function FeedBits(c: Word, bits: Bits): Word
    decreases |bits|
  {
    if bits == [] then c else FeedBits(FeedBit(c, bits[0]), bits[1..])
  }

  // The bits of a message: the bytes in order, each from its lowest bit.
  function MessageBits(bs: seq<Byte>): (r: Bits)
    ensures |r| == 8 * |bs|
  {
    if bs == [] then [] else MessageBits(Init(bs)) + ToBits(Last(bs), 8)
  }

  function Crc32Of(bs: seq<Byte>): Word
  {
    Xor(FeedBits(Ones(), MessageBits(bs)), Ones())
  }

  // ----- the polynomial as a number -----

  lemma {:induction false} ToBitsSplit(hi: nat, lo: nat, m: nat, n: nat)
    requires lo < Power2(n)
    ensures ToBits(hi * Power2(n) + lo, n + m) == ToBits(lo, n) + ToBits(hi, m)
    decreases n
  {
    if n == 0 {
      assert ToBits(lo, 0) == [];
    } else {
      var p := Power2(n - 1);
      Halves(hi, lo, p);
      ToBitsSplit(hi, lo / 2, m, n - 1);
      hide ToBits;
      OneBit(hi * (2 * p) + lo, n - 1 + m);
      OneBit(lo, n - 1);
    }
  }

  lemma Halves(hi: nat, lo: nat, p: nat)
    ensures var x := hi * (2 * p) + lo; x / 2 == hi * p + lo / 2 && x % 2 == lo % 2
  {
    assert hi * (2 * p) == 2 * (hi * p);
  }

  lemma OneBit(x: nat, n: nat)
    ensures ToBits(x, n + 1) == [x % 2 == 1] + ToBits(x / 2, n) && ToBits(x, 0) == []
  {
  }

  lemma LowByte(hi: nat, lo: Byte, m: nat)
    ensures ToBits(0x100 * hi + lo, m + 8) == ToBits(lo, 8) + ToBits(hi, m)
  {
    hide *;
    Power2Values();
    ToBitsSplit(hi, lo, m, 8);
  }

  // A word of four bytes.
  lemma WordOfBytes(b3: Byte, b2: Byte, b1: Byte, b0: Byte)
    ensures ToBits(0x100 * (0x100 * (0x100 * b3 + b2) + b1) + b0, 32)
         == ToBits(b0, 8) + ToBits(b1, 8) + ToBits(b2, 8) + ToBits(b3, 8)
  {
    hide *;
    LowByte(0x100 * (0x100 * b3 + b2) + b1, b0, 24);
    LowByte(0x100 * b3 + b2, b1, 16);
    LowByte(b3, b2, 8);
  }

  lemma Power2Four()
    ensures Power2(4) == 16
  {
    Power2Add(2, 2);
  }

  // A hexadecimal digit.
  lemma DigitBits(x: nat)
    requires x < 16
    ensures ToBits(x, 4) == [x % 2 == 1, x / 2 % 2 == 1, x / 4 % 2 == 1, x / 8 == 1]
  {
    hide *;
    OneBit(x, 3);
    OneBit(x / 2, 2);
    OneBit(x / 4, 1);
    OneBit(x / 8, 0);
  }

  // A byte of two of them.
  lemma ByteBits(hi: nat, lo: nat)
    requires hi < 16 && lo < 16
    ensures ToBits(16 * hi + lo, 8) == ToBits(lo, 4) + ToBits(hi, 4)
  {
    hide *;
    assert Power2(4) == 16 by { Power2Four(); }
    ToBitsSplit(hi, lo, 4, 4);
  }

  lemma ByteValue(hi: nat, lo: nat)
    requires hi < 16 && lo < 16
    ensures ToBits(16 * hi + lo, 8) == [lo % 2 == 1, lo / 2 % 2 == 1, lo / 4 % 2 == 1, lo / 8 == 1,
                                        hi % 2 == 1, hi / 2 % 2 == 1, hi / 4 % 2 == 1, hi / 8 == 1]
  {
    hide *;
    ByteBits(hi, lo);
    DigitBits(lo);
    DigitBits(hi);
  }

  lemma PolynomialBytes()
    ensures POLYNOMIAL == ToBits(0x20, 8) + ToBits(0x83, 8) + ToBits(0xB8, 8) + ToBits(0xED, 8)
  {
    hide ToBits;
    ByteValue(0x2, 0x0);
    ByteValue(0x8, 0x3);
    ByteValue(0xB, 0x8);
    ByteValue(0xE, 0xD);
  }

  lemma ReverseConcat(a: Bits, b: Bits)
    ensures Reverse(a + b) == Reverse(b) + Reverse(a)
  {
  }

  // The bytes of the polynomial, each in reverse.
  lemma ReversedBytes()
    ensures Reverse(ToBits(0x20, 8)) == ToBits(0x04, 8) && Reverse(ToBits(0x83, 8)) == ToBits(0xC1, 8)
    ensures Reverse(ToBits(0xB8, 8)) == ToBits(0x1D, 8) && Reverse(ToBits(0xED, 8)) == ToBits(0xB7, 8)
  {
    hide *;
    ReversedByte(0x2, 0x0, 0x0, 0x4);
    ReversedByte(0x8, 0x3, 0xC, 0x1);
    ReversedByte(0xB, 0x8, 0x1, 0xD);
    ReversedByte(0xE, 0xD, 0xB, 0x7);
  }

  lemma ReversedByte(hi: nat, lo: nat, hi': nat, lo': nat)
    requires hi < 16 && lo < 16 && hi' < 16 && lo' < 16
    requires lo' == 8 * (hi % 2) + 4 * (hi / 2 % 2) + 2 * (hi / 4 % 2) + hi / 8
    requires hi' == 8 * (lo % 2) + 4 * (lo / 2 % 2) + 2 * (lo / 4 % 2) + lo / 8
    ensures Reverse(ToBits(16 * hi + lo, 8)) == ToBits(16 * hi' + lo', 8)
  {
    hide *;
    ByteBits(hi, lo);
    ByteBits(hi', lo');
    ReversedDigit(hi, lo');
    ReversedDigit(lo, hi');
    ReverseConcat(ToBits(lo, 4), ToBits(hi, 4));
  }

  lemma ReversedDigit(x: nat, y: nat)
    requires x < 16 && y == 8 * (x % 2) + 4 * (x / 2 % 2) + 2 * (x / 4 % 2) + x / 8
    ensures Reverse(ToBits(x, 4)) == ToBits(y, 4)
  {
    hide *;
    DigitBits(x);
    DigitBits(y);
  }

  // It is 0xEDB88320, which is 0x04C11DB7 with its bits reversed.
  lemma PolynomialValue()
    ensures POLYNOMIAL == ToBits(0xEDB8_8320, 32) && Reverse(POLYNOMIAL) == ToBits(0x04C1_1DB7, 32)
  {
    hide *;
    PolynomialBytes();
    WordOfBytes(0xED, 0xB8, 0x83, 0x20);
    WordOfBytes(0x04, 0xC1, 0x1D, 0xB7);
    ReversedBytes();
    var b0, b1, b2, b3 := ToBits(0x20, 8), ToBits(0x83, 8), ToBits(0xB8, 8), ToBits(0xED, 8);
    ReverseConcat(b0 + b1 + b2, b3);
    ReverseConcat(b0 + b1, b2);
    ReverseConcat(b0, b1);
  }

  // ----- the division step is linear and injective -----

  lemma StepAt(c: Word, i: nat)
    requires i < 32
    ensures Step(c)[i] == ((i < 31 && c[i + 1]) != (c[0] && POLYNOMIAL[i]))
  {
  }

  lemma StepXor(a: Word, b: Word)
    ensures Step(Xor(a, b)) == Xor(Step(a), Step(b))
  {
    forall i | 0 <= i < 32
      ensures Step(Xor(a, b))[i] == Xor(Step(a), Step(b))[i]
    {
      StepAt(a, i);
      StepAt(b, i);
      StepAt(Xor(a, b), i);
    }
  }

  lemma StepInjective(a: Word, b: Word)
    requires Step(a) == Step(b)
    ensures a == b
  {
    StepAt(a, 31);
    StepAt(b, 31);
    assert POLYNOMIAL[31];
    forall i | 1 <= i < 32
      ensures a[i] == b[i]
    {
      StepAt(a, i - 1);
      StepAt(b, i - 1);
    }
  }

  lemma {:induction false} StepsXor(a: Word, b: Word, n: nat)
    ensures Steps(Xor(a, b), n) == Xor(Steps(a, n), Steps(b, n))
  {
    hide Step;
    if n > 0 {
      StepsXor(a, b, n - 1);
      StepXor(Steps(a, n - 1), Steps(b, n - 1));
    }
  }

  lemma {:induction false} StepsInjective(a: Word, b: Word, n: nat)
    requires Steps(a, n) == Steps(b, n)
    ensures a == b
  {
    hide Step;
    if n > 0 {
      StepInjective(Steps(a, n - 1), Steps(b, n - 1));
      StepsInjective(a, b, n - 1);
    }
  }

  lemma {:induction false} StepsFirst(c: Word, n: nat)
    ensures Steps(c, n + 1) == Steps(Step(c), n)
  {
    hide Step;
    if n > 0 {
      StepsFirst(c, n - 1);
    }
  }

  // Message bits may be added to the register all at once: feeding up to 32
  // bits one by one is one addition and then as many division steps.
  lemma {:induction false} FeedBitsIsSteps(c: Word, bits: Bits)
    requires |bits| <= 32
    ensures FeedBits(c, bits) == Steps(Xor(c, bits + ZeroBits(32 - |bits|)), |bits|)
    decreases |bits|
  {
    var padded := bits + ZeroBits(32 - |bits|);
    if bits == [] {
      assert Xor(c, padded) == c;
    } else {
      var rest := bits[1..];
      var restPadded := rest + ZeroBits(32 - |rest|);
      var added := [c[0] != bits[0]] + c[1..];
      var high := [false] + padded[1..];
      assert Xor(c, padded) == Xor(added, high);
      assert ShiftRight(high, 1) == restPadded;
      hide Step;
      StepXor(added, high);
      EvenStep(high);
      FeedBitsIsSteps(FeedBit(c, bits[0]), rest);
      StepsFirst(Xor(c, padded), |rest|);
    }
  }

  lemma EvenStep(h: Word)
    requires !h[0]
    ensures Step(h) == ShiftRight(h, 1)
  {
  }

  lemma {:induction false} FeedBitsConcat(c: Word, a: Bits, b: Bits)
    ensures FeedBits(c, a + b) == FeedBits(FeedBits(c, a), b)
    decreases |a|
  {
    hide FeedBit;
    if a == [] {
      assert a + b == b;
    } else {
      assert (a + b)[1..] == a[1..] + b;
      FeedBitsConcat(FeedBit(c, a[0]), a[1..], b);
    }
  }

  // ----- reflection and the lookup table -----

  // CRC32Reflect: the c low-order bits of x in reverse order.
  method Crc32Reflect(x: Word, c: nat) returns (val: Word)
    requires c <= 32
    ensures val == Reverse(x[..c]) + ZeroBits(32 - c)
  {
    val := ZeroBits(32);
    var reflectMe := x;
    var position := 1;
    while position < c + 1
      invariant 1 <= position <= c + 1
      invariant reflectMe == ShiftRight(x, position - 1)
      invariant forall i :: 0 <= i < 32 ==> val[i] == (c - position < i < c && x[c - 1 - i])
    {
      if reflectMe[0] {
        val := val[c - position := true];
      }
      reflectMe := ShiftRight(reflectMe, 1);
      assert reflectMe == ShiftRight(x, position);
      position := position + 1;
    }
  }

  // One division step on the unreflected register.
  function ForwardStep(c: Word): Word
  {
    Xor(ShiftLeft(c, 1), if c[31] then Reverse(POLYNOMIAL) else ZeroBits(32))
  }

  lemma ForwardStepAt(c: Word, j: nat)
    requires j < 32
    ensures ForwardStep(c)[j] == ((j > 0 && c[j - 1]) != (c[31] && POLYNOMIAL[31 - j]))
  {
    hide *;
    ForwardStepValue(c);
    ShiftLeftAt(c, j);
  }

  lemma ForwardStepValue(c: Word)
    ensures |POLYNOMIAL| == 32
    ensures ForwardStep(c) == Xor(ShiftLeft(c, 1), if c[31] then Reverse(POLYNOMIAL) else ZeroBits(32))
  {
    hide Xor, Reverse, ZeroBits, ShiftLeft;
  }

  lemma ShiftLeftAt(c: Word, j: nat)
    requires j < 32
    ensures ShiftLeft(c, 1)[j] == (j > 0 && c[j - 1])
  {
  }

  lemma ForwardStepReversed(c: Word)
    ensures Reverse(ForwardStep(c)) == Step(Reverse(c))
  {
    hide Step, ForwardStep;
    forall i | 0 <= i < 32
      ensures Reverse(ForwardStep(c))[i] == Step(Reverse(c))[i]
    {
      StepAt(Reverse(c), i);
      ForwardStepAt(c, 31 - i);
    }
  }

  ghost predicate IsTable(t: seq<Word>, n: nat)
  {
    n <= |t| == 256 && forall i :: 0 <= i < n ==> t[i] == Steps(ToBits(i, 8) + ZeroBits(24), 8)
  }

  // CRC32::Initialize.
  method InitializeTable() returns (table: array<Word>)
    ensures fresh(table) && IsTable(table[..], 256) && table[0x80] == ToBits(0xEDB8_8320, 32)
  {
    table := new Word[256](_ => ZeroBits(32));
    for code: int := 0 to 256
      invariant IsTable(table[..], code)
    {
      ghost var before := table[..];
      var entry := TableEntry(ToBits(code, 8) + ZeroBits(24));
      table[code] := entry;
      assert table[..code] == before[..code];
    }
    HalfwayEntry();
    assert table[..][0x80] == table[0x80];
  }

  // The entry of 0x80 is the polynomial itself.
  lemma HalfwayEntry()
    ensures Steps(ToBits(0x80, 8) + ZeroBits(24), 8) == ToBits(0xEDB8_8320, 32)
  {
    hide *;
    PolynomialValue();
    HalfwayBits();
    var c := ToBits(0x80, 8) + ZeroBits(24);
    HighSteps(c, 7);
    OnlyHighBit(c);
    StepsNext(c, 7);
    LowBitStep([true] + ZeroBits(31));
  }

  lemma OnlyHighBit(c: Word)
    requires c == ZeroBits(7) + [true] + ZeroBits(24)
    ensures ShiftRight(c, 7) == [true] + ZeroBits(31)
  {
  }

  lemma StepsNext(c: Word, n: nat)
    ensures Steps(c, n + 1) == Step(Steps(c, n))
  {
  }

  lemma LowBitStep(h: Word)
    requires h == [true] + ZeroBits(31)
    ensures Step(h) == POLYNOMIAL
  {
    forall i | 0 <= i < 32
      ensures Step(h)[i] == POLYNOMIAL[i]
    {
      StepAt(h, i);
    }
  }

  lemma HalfwayBits()
    ensures ToBits(0x80, 8) == ZeroBits(7) + [true]
  {
    ByteValue(0x8, 0x0);
    hide ToBits;
  }

  // The body of the outer loop of CRC32::Initialize: reflect, shift, reflect.
  method TableEntry(code: Word) returns (entry: Word)
    requires code[8..] == ZeroBits(24)
    ensures entry == Steps(code, 8)
  {
    hide Step;
    var reflected := Crc32Reflect(code, 8);
    entry := ShiftLeft(reflected, 24);
    assert Reverse(entry) == code;
    for position := 0 to 8
      invariant Reverse(entry) == Steps(code, position)
    {
      ForwardStepReversed(entry);
      entry := Xor(ShiftLeft(entry, 1), if entry[31] then Reverse(POLYNOMIAL) else ZeroBits(32));
    }
    assert entry[..32] == entry;
    entry := Crc32Reflect(entry, 32);
  }

  // ----- the checksum object -----

  // As long as zeros come out, the steps move the register down.
  lemma {:induction false} HighSteps(h: Word, n: nat)
    requires n <= 32 && forall i :: 0 <= i < n ==> !h[i]
    ensures Steps(h, n) == ShiftRight(h, n)
  {
    if n > 0 {
      HighSteps(h, n - 1);
      EvenStep(ShiftRight(h, n - 1));
      hide Step;
      assert ShiftRight(ShiftRight(h, n - 1), 1) == ShiftRight(h, n);
    } else {
      assert ShiftRight(h, 0) == h;
    }
  }

  // A table lookup does the work of eight bit steps.
  lemma LookupFeedsByte(c: Word, bits: Bits)
    requires |bits| == 8
    ensures Xor(ShiftRight(c, 8), Steps(Xor(c[..8], bits) + ZeroBits(24), 8)) == FeedBits(c, bits)
  {
    var low, high := Xor(c[..8], bits) + ZeroBits(24), ZeroBits(8) + c[8..];
    assert Xor(c, bits + ZeroBits(24)) == Xor(high, low);
    assert ShiftRight(high, 8) == ShiftRight(c, 8);
    hide Step;
    FeedBitsIsSteps(c, bits);
    StepsXor(high, low, 8);
    HighSteps(high, 8);
  }

  class Crc32 {
    const table: array<Word>
    var crcState: Word
    var finalized: bool
    ghost var folded: seq<Byte>  // the bytes folded in so far

    ghost predicate Valid()
      reads this, table
    {
      && IsTable(table[..], 256)
      && crcState == if finalized then Crc32Of(folded) else FeedBits(Ones(), MessageBits(folded))
    }

    constructor ()
      ensures Valid() && fresh(table) && !finalized && folded == []
    {
      var t := InitializeTable();
      table := t;
      crcState, finalized := Ones(), false;
      folded := [];
    }

    method FoldByteIntoCRC(nextByte: Byte)
      requires Valid() && !finalized
      modifies this
      ensures Valid() && !finalized && folded == old(folded) + [nextByte]
    {
      hide FeedBits, Step, Steps;
      var bits := ToBits(nextByte, 8);
      var index := Xor(crcState[..8], bits);
      LookupFeedsByte(crcState, bits);
      ToBitsOfNat(index);
      Power2Values();
      FeedBitsConcat(Ones(), MessageBits(folded), bits);
      assert table[..][ToNat(index)] == table[ToNat(index)];
      crcState := Xor(ShiftRight(crcState, 8), table[ToNat(index)]);
      folded := folded + [nextByte];
      assert Init(folded) == old(folded);
    }

    // The final value; asking again gives the same answer.
    method GetFinalCRC() returns (crc: Word)
      requires Valid()
      modifies this
      ensures Valid() && finalized && folded == old(folded)
      ensures crc == Crc32Of(folded)
    {
      if !finalized {
        finalized := true;
        crcState := Xor(crcState, Ones());
      }
      crc := crcState;
    }
  }

  // Fold the bytes of a buffer, one by one.
  method FoldAll(crc: Crc32, buf: seq<Byte>)
    requires crc.Valid() && !crc.finalized
    modifies crc
    ensures crc.Valid() && !crc.finalized && crc.folded == old(crc.folded) + buf
  {
    hide *;
    for i := 0 to |buf|
      invariant crc.Valid() && !crc.finalized
      invariant crc.folded == old(crc.folded) + buf[..i]
    {
      crc.FoldByteIntoCRC(buf[i]);
    }
    assert buf[..|buf|] == buf;
  }

  // ----- error detection -----

  lemma {:induction false} FeedBitsInjective(c: Word, d: Word, bits: Bits)
    requires FeedBits(c, bits) == FeedBits(d, bits)
    ensures c == d
    decreases |bits|
  {
    if bits != [] {
      FeedBitsInjective(FeedBit(c, bits[0]), FeedBit(d, bits[0]), bits[1..]);
      var c1, d1 := [c[0] != bits[0]] + c[1..], [d[0] != bits[0]] + d[1..];
      StepInjective(c1, d1);
      assert c1[0] == d1[0];
      assert forall i :: 1 <= i < 32 ==> c[i] == c1[i] && d[i] == d1[i];
    }
  }

  // Messages that agree outside some 32 consecutive bits have the same
  // register exactly when they are the same message.
  lemma BurstDetected(c: Word, before: Bits, x: Bits, y: Bits, after: Bits)
    requires |x| == |y| <= 32
    ensures FeedBits(c, before + x + after) == FeedBits(c, before + y + after) <==> x == y
  {
    if FeedBits(c, before + x + after) == FeedBits(c, before + y + after) {
      FeedBitsConcat(c, before + x, after);
      FeedBitsConcat(c, before + y, after);
      FeedBitsInjective(FeedBits(c, before + x), FeedBits(c, before + y), after);
      FeedBitsConcat(c, before, x);
      FeedBitsConcat(c, before, y);
      var d := FeedBits(c, before);
      var px, py := x + ZeroBits(32 - |x|), y + ZeroBits(32 - |y|);
      FeedBitsIsSteps(d, x);
      FeedBitsIsSteps(d, y);
      StepsInjective(Xor(d, px), Xor(d, py), |x|);
      forall i | 0 <= i < |x|
        ensures x[i] == y[i]
      {
        assert Xor(d, px)[i] == Xor(d, py)[i];
      }
    }
  }

  lemma {:induction false} MessageBitsConcat(a: seq<Byte>, b: seq<Byte>)
    ensures MessageBits(a + b) == MessageBits(a) + MessageBits(b)
    decreases |b|
  {
    hide *;
    InitConcat(a, b);
    if b != [] {
      MessageBitsConcat(a, Init(b));
      MessageBitsLast(a + b);
      MessageBitsLast(b);
    } else {
      MessageBitsLast(b);
    }
  }

  lemma {:induction false} MessageBitsInjective(a: seq<Byte>, b: seq<Byte>)
    requires MessageBits(a) == MessageBits(b)
    ensures a == b
  {
    hide MessageBits, ToBits;
    MessageBitsLast(a);
    MessageBitsLast(b);
    if a != [] {
      var n := 8 * |Init(a)|;
      assert MessageBits(a)[..n] == MessageBits(Init(a)) && MessageBits(b)[..n] == MessageBits(Init(b));
      assert MessageBits(a)[n..] == ToBits(Last(a), 8) && MessageBits(b)[n..] == ToBits(Last(b), 8);
      MessageBitsInjective(Init(a), Init(b));
      ByteOfBits(Last(a), Last(b));
      assert a == Init(a) + [Last(a)] && b == Init(b) + [Last(b)];
    }
  }

  lemma MessageBitsLast(a: seq<Byte>)
    ensures |MessageBits(a)| == 8 * |a|
    ensures a != [] ==> MessageBits(a) == MessageBits(Init(a)) + ToBits(Last(a), 8)
  {
    hide ToBits;
  }

  lemma ByteOfBits(x: Byte, y: Byte)
    requires ToBits(x, 8) == ToBits(y, 8)
    ensures x == y
  {
    hide ToBits;
    Power2Values();
    ToNatOfBits(x, 8);
    ToNatOfBits(y, 8);
  }

  // a and b differ, if at all, only within four consecutive bytes from at.
  predicate AgreeOutside(a: seq<Byte>, b: seq<Byte>, at: int)
  {
    |a| == |b| && forall i :: 0 <= i < |a| && !(at <= i < at + 4) ==> a[i] == b[i]
  }

  lemma SplitWindow(a: seq<Byte>, b: seq<Byte>, at: int)
    returns (before: seq<Byte>, x: seq<Byte>, y: seq<Byte>, after: seq<Byte>)
    requires AgreeOutside(a, b, at)
    ensures a == before + x + after && b == before + y + after && |x| == |y| <= 4
  {
    var lo := if at < 0 then 0 else if at < |a| then at else |a|;
    var hi := if at + 4 < lo then lo else if at + 4 < |a| then at + 4 else |a|;
    before, x, y, after := a[..lo], a[lo..hi], b[lo..hi], a[hi..];
    assert a == a[..lo] + a[lo..hi] + a[hi..];
    assert b == b[..lo] + b[lo..hi] + b[hi..];
    assert b[..lo] == a[..lo];
    assert b[hi..] == a[hi..];
  }

  // The checksum detects every change confined to four consecutive bytes.
  lemma BurstChangesCrc(a: seq<Byte>, b: seq<Byte>, at: int)
    requires AgreeOutside(a, b, at)
    ensures Crc32Of(a) == Crc32Of(b) <==> a == b
  {
    if Crc32Of(a) == Crc32Of(b) {
      hide FeedBits, MessageBits, AgreeOutside;
      XorOnesInjective(FeedBits(Ones(), MessageBits(a)), FeedBits(Ones(), MessageBits(b)));
      var before, x, y, after := SplitWindow(a, b, at);
      MessageBitsConcat(before + x, after);
      MessageBitsConcat(before, x);
      MessageBitsConcat(before + y, after);
      MessageBitsConcat(before, y);
      BurstDetected(Ones(), MessageBits(before), MessageBits(x), MessageBits(y), MessageBits(after));
      MessageBitsInjective(x, y);
    }
  }

  // ----- a checksum as a number -----

  // The register in front of the byte 0x7F, with the byte added to it.
  lemma FirstByteAdded()
    ensures Xor(Ones(), ToBits(0x7F, 8) + ZeroBits(24)) == ZeroBits(7) + Ones()[..25]
  {
    ByteValue(0x7, 0xF);
    assert forall i :: 0 <= i < 7 ==> ToBits(0x7F, 8)[i];
    assert !ToBits(0x7F, 8)[7];
    hide *;
    var l, r := Xor(Ones(), ToBits(0x7F, 8) + ZeroBits(24)), ZeroBits(7) + Ones()[..25];
    forall i | 0 <= i < 32
      ensures l[i] == r[i]
    {
    }
  }

  // Seven zeros come out of it, and then a one.
  lemma FirstByteSteps(c: Word)
    requires c == ZeroBits(7) + Ones()[..25]
    ensures Steps(c, 8) == Xor(Ones()[..24] + ZeroBits(8), POLYNOMIAL)
  {
    HighSteps(c, 7);
    var h := Ones()[..25] + ZeroBits(7);
    assert ShiftRight(c, 7) == h;
    assert ShiftRight(h, 1) == Ones()[..24] + ZeroBits(8);
    StepsNext(c, 7);
  }

  // The checksum of the one byte 0x7F is 0x12B88320.
  lemma ChecksumValue()
    ensures Crc32Of([0x7F]) == ToBits(0x12B8_8320, 32)
  {
    hide *;
    var bits := ToBits(0x7F, 8);
    FirstByteAdded();
    FirstByteSteps(Xor(Ones(), bits + ZeroBits(24)));
    FeedBitsIsSteps(Ones(), bits);
    OneByte(0x7F);
    PolynomialBytes();
    WordOfBytes(0x12, 0xB8, 0x83, 0x20);
    XorTwice(ToBits(0x20, 8) + ToBits(0x83, 8) + ToBits(0xB8, 8), ToBits(0xED, 8));
    HighComplement();
  }

  lemma OneByte(b: Byte)
    ensures Crc32Of([b]) == Xor(FeedBits(Ones(), ToBits(b, 8)), Ones())
  {
    hide FeedBits, ToBits;
    assert Init([b]) == [] && MessageBits([]) == [];
    assert MessageBits([b]) == [] + ToBits(b, 8) == ToBits(b, 8);
  }

  lemma XorTwice(low: Bits, high: Bits)
    requires |low| == 24 && |high| == 8
    ensures Xor(Xor(Ones()[..24] + ZeroBits(8), low + high), Ones()) == low + Xor(high, Ones()[..8])
  {
    var l, r := Xor(Xor(Ones()[..24] + ZeroBits(8), low + high), Ones()), low + Xor(high, Ones()[..8]);
    forall i | 0 <= i < 32
      ensures l[i] == r[i]
    {
    }
  }

  lemma HighComplement()
    ensures Xor(ToBits(0xED, 8), Ones()[..8]) == ToBits(0x12, 8)
  {
    ByteValue(0xE, 0xD);
    ByteValue(0x1, 0x2);
    hide ToBits;
  }

  lemma XorOnesInjective(c: Word, d: Word)
    requires Xor(c, Ones()) == Xor(d, Ones())
    ensures c == d
  {
    forall i | 0 <= i < 32
      ensures c[i] == d[i]
    {
      assert Xor(c, Ones())[i] == Xor(d, Ones())[i];
    }
  }
}
