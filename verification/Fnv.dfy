/**
 The 64-bit FNV-1a hash (hw1/HashTable.c).
 */
module Fnv {
  import opened Common
  import opened Crc
  import LayoutStructs

  const FNV1_64_INIT: Key := 0xcbf2_9ce4_8422_2325
  const FNV_64_PRIME: int := 0x100_0000_01b3

  // hval ^= octet: only the low byte changes.
  function XorOctet(hval: Key, octet: Byte): Key
  {
    var low := ToNat(Xor(ToBits(hval % 256, 8), ToBits(octet, 8)));
    (hval - hval % 256 + low) % 0x1_0000_0000_0000_0000
  }

  function FnvStep(hval: Key, octet: Byte): Key
  {
    (XorOctet(hval, octet) * FNV_64_PRIME) % 0x1_0000_0000_0000_0000
  }

  function FnvFrom(hval: Key, buffer: seq<Byte>): Key
  {
    if buffer == [] then hval else FnvStep(FnvFrom(hval, Init(buffer)), Last(buffer))
  }

  function FnvHash(buffer: seq<Byte>): Key
  {
    FnvFrom(FNV1_64_INIT, buffer)
  }

  method FNVHash64(buffer: seq<Byte>) returns (hval: Key)
    ensures hval == FnvHash(buffer)
  {
    hide FnvStep;
    hval := FNV1_64_INIT;
    for i := 0 to |buffer|
      invariant hval == FnvFrom(FNV1_64_INIT, buffer[..i])
    {
      PrefixSnoc(buffer, i);
      hval := FnvStep(hval, buffer[i]);
    }
    assert buffer[..|buffer|] == buffer;
  }

  // The in-place xor of the low byte never leaves 64 bits.
  lemma XorOctetExact(hval: Key, octet: Byte)
    ensures XorOctet(hval, octet) / 256 == hval / 256
    ensures XorOctet(hval, octet) % 256 == ToNat(Xor(ToBits(hval % 256, 8), ToBits(octet, 8)))
  {
    hide *;
    var bits := Xor(ToBits(hval % 256, 8), ToBits(octet, 8));
    ToBitsOfNat(bits);
    Power2Values();
    XorOctetValue(hval, octet);
    LowByteReplaced(hval, ToNat(bits));
  }

  lemma XorOctetValue(hval: Key, octet: Byte)
    ensures var low := ToNat(Xor(ToBits(hval % 256, 8), ToBits(octet, 8)));
            XorOctet(hval, octet) == (hval - hval % 256 + low) % 0x1_0000_0000_0000_0000
  {
    hide Xor, ToBits, ToNat;
  }

  lemma LowByteReplaced(hval: Key, low: Byte)
    ensures var r := (hval - hval % 256 + low) % 0x1_0000_0000_0000_0000;
            r / 256 == hval / 256 && r % 256 == low
  {
    var q := hval / 256;
    assert hval - hval % 256 + low == 256 * q + low;
    assert 0 <= 256 * q + low < 0x1_0000_0000_0000_0000;
  }

  lemma XorInjective(a: Bits, b: Bits, c: Bits)
    requires |a| == |b| == |c|
    ensures Xor(a, b) == Xor(a, c) ==> b == c
    ensures Xor(b, a) == Xor(c, a) ==> b == c
  {
    forall i | 0 <= i < |a|
      ensures Xor(a, b)[i] == Xor(a, c)[i] ==> b[i] == c[i]
      ensures Xor(b, a)[i] == Xor(c, a)[i] ==> b[i] == c[i]
    {
    }
  }

  // ----- the step can be undone -----

  // The inverse of the prime modulo 2^64.
  const INVERSE: int := 0xce96_5057_aff6_957b

  lemma ProductUndone(x: Key)
    ensures (x * FNV_64_PRIME % 0x1_0000_0000_0000_0000) * INVERSE % 0x1_0000_0000_0000_0000 == x
  {
    var m, p := 0x1_0000_0000_0000_0000, x * FNV_64_PRIME;
    var q, k := p / m, FNV_64_PRIME * INVERSE / m;
    assert FNV_64_PRIME * INVERSE == k * m + 1;
    assert (p % m) * INVERSE == (x * k - q * INVERSE) * m + x by {
      assert p % m == p - q * m;
      assert p * INVERSE == x * (k * m + 1);
    }
    LayoutStructs.ModUnique((p % m) * INVERSE, m, x * k - q * INVERSE, x);
  }

  lemma FnvStepValue(hval: Key, octet: Byte)
    ensures FnvStep(hval, octet) == (XorOctet(hval, octet) * FNV_64_PRIME) % 0x1_0000_0000_0000_0000
  {
    hide XorOctet, FNV_64_PRIME;
  }

  lemma XorOctetInjective(g: Key, h: Key, a: Byte, b: Byte)
    requires g == h || a == b
    ensures XorOctet(g, a) == XorOctet(h, b) ==> g == h && a == b
  {
    hide *;
    XorOctetExact(g, a);
    XorOctetExact(h, b);
    var x, y := Xor(ToBits(g % 256, 8), ToBits(a, 8)), Xor(ToBits(h % 256, 8), ToBits(b, 8));
    ToBitsOfNat(x);
    ToBitsOfNat(y);
    XorInjective(ToBits(g % 256, 8), ToBits(a, 8), ToBits(b, 8));
    XorInjective(ToBits(a, 8), ToBits(g % 256, 8), ToBits(h % 256, 8));
    SameByte(a, b);
    SameByte(g % 256, h % 256);
  }

  lemma SameByte(a: Byte, b: Byte)
    ensures ToBits(a, 8) == ToBits(b, 8) ==> a == b
  {
    hide ToBits, ToNat;
    Power2Values();
    ToNatOfBits(a, 8);
    ToNatOfBits(b, 8);
  }

  // Different states, or different octets, lead to different states.
  lemma StepInjective(g: Key, h: Key, a: Byte, b: Byte)
    requires g == h || a == b
    ensures FnvStep(g, a) == FnvStep(h, b) ==> g == h && a == b
  {
    hide *;
    FnvStepValue(g, a);
    FnvStepValue(h, b);
    ProductUndone(XorOctet(g, a));
    ProductUndone(XorOctet(h, b));
    XorOctetInjective(g, h, a, b);
  }

  lemma {:induction false} FnvFromInjective(g: Key, h: Key, buffer: seq<Byte>)
    ensures FnvFrom(g, buffer) == FnvFrom(h, buffer) <==> g == h
  {
    hide FnvStep;
    if buffer != [] {
      FnvFromInjective(g, h, Init(buffer));
      StepInjective(FnvFrom(g, Init(buffer)), FnvFrom(h, Init(buffer)), Last(buffer), Last(buffer));
    }
  }

  lemma {:induction false} FnvFromConcat(h: Key, u: seq<Byte>, v: seq<Byte>)
    ensures FnvFrom(h, u + v) == FnvFrom(FnvFrom(h, u), v)
    decreases |v|
  {
    hide FnvStep;
    InitConcat(u, v);
    if v != [] {
      FnvFromConcat(h, u, Init(v));
    }
  }

  lemma OneStep(h: Key, a: Byte)
    ensures FnvFrom(h, [a]) == FnvStep(h, a)
  {
    hide FnvStep;
    assert Init([a]) == [] && Last([a]) == a;
    assert FnvFrom(h, []) == h;
  }

  // Every octet matters: words that differ in one place only have different hashes.
  lemma OneOctetDiffers(u: seq<Byte>, a: Byte, b: Byte, v: seq<Byte>)
    ensures FnvHash(u + [a] + v) == FnvHash(u + [b] + v) <==> a == b
  {
    hide *;
    var h := FnvHash(u);
    HashOfThree(u, a, v);
    HashOfThree(u, b, v);
    FnvFromInjective(FnvStep(h, a), FnvStep(h, b), v);
    StepInjective(h, h, a, b);
  }

  lemma HashOfThree(u: seq<Byte>, a: Byte, v: seq<Byte>)
    ensures FnvHash(u + [a] + v) == FnvFrom(FnvStep(FnvHash(u), a), v)
  {
    hide FnvFrom, FnvStep;
    FnvFromConcat(FNV1_64_INIT, u + [a], v);
    FnvFromConcat(FNV1_64_INIT, u, [a]);
    OneStep(FnvHash(u), a);
  }

  // Words of one letter have different hashes.
  lemma DifferentLetters(a: Byte, b: Byte)
    requires a != b
    ensures FnvHash([a]) != FnvHash([b])
  {
    hide *;
    OneOctetDiffers([], a, b, []);
    assert [] + [a] + [] == [a] && [] + [b] + [] == [b];
  }

  // ----- hashes as numbers -----

  lemma NextHash(hval: Key, octet: Byte, low: Byte)
    requires Xor(ToBits(hval % 256, 8), ToBits(octet, 8)) == ToBits(low, 8)
    ensures FnvStep(hval, octet) == ((hval - hval % 256 + low) * FNV_64_PRIME) % 0x1_0000_0000_0000_0000
  {
    hide *;
    Power2Values();
    ToNatOfBits(low, 8);
    XorOctetExact(hval, octet);
    FnvStepValue(hval, octet);
  }

  lemma HashOfNothing()
    ensures FnvHash([]) == 0xcbf2_9ce4_8422_2325
  {
  }

  // The bits of three digits.
  ghost predicate IsXor(a: nat, b: nat, c: nat)
  {
    && (c % 2 == 1 <==> a % 2 != b % 2) && (c / 2 % 2 == 1 <==> a / 2 % 2 != b / 2 % 2)
    && (c / 4 % 2 == 1 <==> a / 4 % 2 != b / 4 % 2) && (c / 8 == 1 <==> a / 8 != b / 8)
  }

  lemma XorOfDigit(a: nat, b: nat, c: nat)
    requires a < 16 && b < 16 && c < 16 && IsXor(a, b, c)
    ensures Xor(ToBits(a, 4), ToBits(b, 4)) == ToBits(c, 4)
  {
    DigitBits(a);
    DigitBits(b);
    DigitBits(c);
    hide ToBits, Xor;
  }

  lemma XorConcat(a: Bits, b: Bits, c: Bits, d: Bits)
    requires |a| == |b| && |c| == |d|
    ensures Xor(a + c, b + d) == Xor(a, b) + Xor(c, d)
  {
  }

  lemma XorOfDigits(a1: nat, a0: nat, b1: nat, b0: nat, c1: nat, c0: nat)
    requires a1 < 16 && a0 < 16 && b1 < 16 && b0 < 16 && c1 < 16 && c0 < 16 && IsXor(a1, b1, c1) && IsXor(a0, b0, c0)
    ensures Xor(ToBits(16 * a1 + a0, 8), ToBits(16 * b1 + b0, 8)) == ToBits(16 * c1 + c0, 8)
  {
    hide ToBits, Xor, IsXor;
    ByteBits(a1, a0);
    ByteBits(b1, b0);
    ByteBits(c1, c0);
    XorOfDigit(a1, b1, c1);
    XorOfDigit(a0, b0, c0);
    XorConcat(ToBits(a0, 4), ToBits(b0, 4), ToBits(a1, 4), ToBits(b1, 4));
  }

  // The hash of "a".
  lemma HashValue()
    ensures FnvHash([0x61]) == 0xaf63_dc4c_8601_ec8c
  {
    hide FnvStep, FnvFrom, ToBits, Xor;
    HashOfNothing();
    XorOfDigits(0x2, 0x5, 0x6, 0x1, 0x4, 0x4);
    OneStep(FNV1_64_INIT, 0x61);
    NextHash(FNV1_64_INIT, 0x61, 0x44);
  }
}
