/**
 Percent-decoding, section 2.1 of RFC 3986, and HTML escaping (hw4/HttpUtils.cc).
 */
module HttpUtils {
  import opened Common

  type Text = seq<Byte>

  // ----- URIDecode -----

  const PLUS: Byte := 0x2B
  const PERCENT: Byte := 0x25
  const SPACE: Byte := 0x20

  function ToUpper(c: Byte): Byte
  {
    if 0x61 <= c <= 0x7A then c - 0x20 else c
  }

  // The value of an upper-case hex digit.
  function HexValue(c: Byte): Option<Byte>
  {
    if 0x30 <= c <= 0x39 then Some(c - 0x30)
    else if 0x41 <= c <= 0x46 then Some(10 + (c - 0x41))
    else None
  }

  // The character that a '%' at the head of s stands for, if it is an escape of a
  // reasonable character.
  function EscapeAt(s: Text): Option<Byte>
  {
    if |s| < 3 then None
    else
      match HexValue(ToUpper(s[1]))
      case None => None
      case Some(h) =>
        match HexValue(ToUpper(s[2]))
        case None => None
        case Some(l) => if 32 <= 16 * h + l <= 127 then Some(16 * h + l) else None
  }

  function Decoded(s: Text): Text
  {
    if s == [] then []
    else if s[0] == PLUS then [SPACE] + Decoded(s[1..])
    else if s[0] == PERCENT && EscapeAt(s).Some? then [EscapeAt(s).value] + Decoded(s[3..])
    else [s[0]] + Decoded(s[1..])
  }

  method URIDecode(from: Text) returns (retstr: Text)
    ensures retstr == Decoded(from)
  {
    hide *;
    DecodedEnds(from);
    retstr := [];
    var pos := 0;
    while pos < |from|
      invariant 0 <= pos <= |from| && Decoded(from) == retstr + Decoded(from[pos..])
    {
      DecodedAt(from, pos);
      var c1 := from[pos];
      if c1 == PLUS {
        retstr := retstr + [SPACE];
      } else if c1 != PERCENT {
        retstr := retstr + [c1];
      } else {
        var code := ReadEscape(from, pos);
        if code == None {
          retstr := retstr + [c1];
        } else {
          retstr := retstr + [code.value];
          pos := pos + 2;
        }
      }
      pos := pos + 1;
    }
  }

  lemma DecodedEnds(s: Text)
    ensures s[0..] == s && Decoded(s[|s|..]) == []
  {
  }

  lemma DecodedAt(s: Text, pos: nat)
    requires pos < |s|
    ensures EscapeAt(s[pos..]).Some? ==> pos + 3 <= |s|
    ensures Decoded(s[pos..]) ==
            if s[pos] == PLUS then [SPACE] + Decoded(s[pos + 1..])
            else if s[pos] == PERCENT && EscapeAt(s[pos..]).Some? then
              [EscapeAt(s[pos..]).value] + Decoded(s[pos + 3..])
            else [s[pos]] + Decoded(s[pos + 1..])
  {
    hide HexValue, ToUpper;
    var rest := s[pos..];
    assert rest[1..] == s[pos + 1..] && (|rest| >= 3 ==> rest[3..] == s[pos + 3..]);
  }

  // The part of the loop that looks at the two characters behind a '%'.
  method ReadEscape(from: Text, pos: nat) returns (r: Option<Byte>)
    requires pos < |from|
    ensures r == EscapeAt(from[pos..])
    ensures r.Some? ==> pos + 3 <= |from|
  {
    var c2 := if pos + 1 < |from| then ToUpper(from[pos + 1]) else SPACE;
    var c3 := if pos + 2 < |from| then ToUpper(from[pos + 2]) else SPACE;
    if HexValue(c2).None? || HexValue(c3).None? {
      return None;
    }
    var code := 16 * HexValue(c2).value + HexValue(c3).value;
    r := if 32 <= code <= 127 then Some(code) else None;
  }

  // The hex digits of a value below 16, in either case.
  predicate IsHexDigit(c: Byte, value: int)
  {
    HexValue(ToUpper(c)) == Some(value)
  }

  // e is an encoding of s: some characters in 32..127 written as '%' and two hex
  // digits of either case, some spaces as '+', the others as they are, but never a
  // literal '%' or '+'.
  predicate Encodes(e: Text, s: Text)
  {
    if e == [] then s == []
    else if s == [] then false
    else
      || (e[0] == PLUS && s[0] == SPACE && Encodes(e[1..], s[1..]))
      || (&& e[0] == PERCENT && |e| >= 3 && 32 <= s[0] <= 127
          && IsHexDigit(e[1], s[0] / 16) && IsHexDigit(e[2], s[0] % 16) && Encodes(e[3..], s[1..]))
      || (e[0] == s[0] && e[0] != PLUS && e[0] != PERCENT && Encodes(e[1..], s[1..]))
  }

  // Decoding undoes every encoding.
  lemma {:induction false} DecodingUndoes(e: Text, s: Text)
    requires Encodes(e, s)
    ensures Decoded(e) == s
  {
    if e != [] {
      assert s == [s[0]] + s[1..];
      if e[0] == PERCENT {
        DecodingUndoes(e[3..], s[1..]);
      } else {
        DecodingUndoes(e[1..], s[1..]);
      }
    }
  }

  // The hex digits, in either case.
  lemma HexDigits(c: Byte, v: nat)
    requires v < 16
    ensures IsHexDigit(c, v) <==> c == Chars("0123456789abcdef")[v] || c == Chars("0123456789ABCDEF")[v]
  {
  }

  // A '%' with two hex digits behind it that stand for a character in 32..127.
  ghost predicate StartsEscape(s: Text, c: Byte)
  {
    && |s| >= 3 && s[0] == PERCENT && 32 <= c <= 127
    && exists h, l :: IsHexDigit(s[1], h) && IsHexDigit(s[2], l) && c == 16 * h + l
  }

  // What becomes of the head of a text: every escape is its character, every other '%'
  // is left alone.
  lemma HeadDecoded(s: Text, c: Byte)
    requires s != []
    ensures StartsEscape(s, c) ==> Decoded(s) == [c] + Decoded(s[3..])
    ensures s[0] == PERCENT && (forall d :: !StartsEscape(s, d)) ==> Decoded(s) == [PERCENT] + Decoded(s[1..])
    ensures s[0] == PLUS ==> Decoded(s) == [SPACE] + Decoded(s[1..])
    ensures s[0] != PERCENT && s[0] != PLUS ==> Decoded(s) == [s[0]] + Decoded(s[1..])
  {
    if EscapeAt(s).Some? && s[0] == PERCENT {
      assert IsHexDigit(s[1], HexValue(ToUpper(s[1])).value) && IsHexDigit(s[2], HexValue(ToUpper(s[2])).value);
      assert StartsEscape(s, EscapeAt(s).value);
    }
  }

  // A line feed is not decoded, nor an escape that is cut short.
  lemma SomeDecoded()
    ensures Decoded(Chars("%0A")) == Chars("%0A") && Decoded(Chars("%7")) == Chars("%7")
    ensures Decoded(Chars("%41+%7e")) == Chars("A ~")
  {
  }

  // Every character in 32..127 that is escaped is escaped by its own two digits, and
  // every text has an encoding: one that escapes all it can.
  function HexDigit(v: int): Byte
    requires 0 <= v < 16
  {
    if v < 10 then 0x30 + v else 0x41 + (v - 10)
  }

  function EncodeAll(s: Text): Text
  {
    if s == [] then []
    else if 32 <= s[0] <= 127 then [PERCENT, HexDigit(s[0] / 16), HexDigit(s[0] % 16)] + EncodeAll(s[1..])
    else [s[0]] + EncodeAll(s[1..])
  }

  lemma {:induction false} EncodeAllEncodes(s: Text)
    ensures Encodes(EncodeAll(s), s)
  {
    if s != [] {
      EncodeAllEncodes(s[1..]);
      var e := EncodeAll(s);
      if 32 <= s[0] <= 127 {
        assert e[3..] == EncodeAll(s[1..]);
      } else {
        assert e[1..] == EncodeAll(s[1..]);
      }
    }
  }

  // ----- EscapeHtml -----

  // boost::replace_all for a pattern of one character.
  function Replaced(s: Text, c: Byte, entity: Text): Text
  {
    if s == [] then [] else Replaced(Init(s), c, entity) + if Last(s) == c then entity else [Last(s)]
  }

  method ReplaceAll(s: Text, c: Byte, entity: Text) returns (r: Text)
    ensures r == Replaced(s, c, entity)
  {
    r := [];
    for i := 0 to |s|
      invariant r == Replaced(s[..i], c, entity)
    {
      PrefixSnoc(s, i);
      r := r + if s[i] == c then entity else [s[i]];
    }
    assert s[..|s|] == s;
  }

  const AMP: Byte := 0x26
  const LT: Byte := 0x3C
  const GT: Byte := 0x3E
  const APOS: Byte := 0x27
  const QUOT: Byte := 0x22

  function Entity(c: Byte): Text
  {
    if c == AMP then [0x26, 0x61, 0x6D, 0x70, 0x3B]
    else if c == LT then [0x26, 0x6C, 0x74, 0x3B]
    else if c == GT then [0x26, 0x67, 0x74, 0x3B]
    else if c == APOS then [0x26, 0x61, 0x70, 0x6F, 0x73, 0x3B]
    else if c == QUOT then [0x26, 0x71, 0x75, 0x6F, 0x74, 0x3B]
    else [c]
  }

  // Each character on its own.
  function Escaped(s: Text): Text
  {
    if s == [] then [] else Escaped(Init(s)) + Entity(Last(s))
  }

  method EscapeHtml(from: Text) returns (ret: Text)
    ensures ret == Escaped(from)
  {
    ret := ReplaceAll(from, AMP, Entity(AMP));
    ret := ReplaceAll(ret, LT, Entity(LT));
    ret := ReplaceAll(ret, GT, Entity(GT));
    ret := ReplaceAll(ret, APOS, Entity(APOS));
    ret := ReplaceAll(ret, QUOT, Entity(QUOT));
    FivePasses(from);
  }

  function Passes(s: Text): Text
  {
    var r1 := Replaced(s, AMP, Entity(AMP));
    var r2 := Replaced(r1, LT, Entity(LT));
    var r3 := Replaced(r2, GT, Entity(GT));
    var r4 := Replaced(r3, APOS, Entity(APOS));
    Replaced(r4, QUOT, Entity(QUOT))
  }

  lemma ReplacedSnoc(s: Text, x: Byte, c: Byte, entity: Text)
    ensures Replaced(s + [x], c, entity) == Replaced(s, c, entity) + if x == c then entity else [x]
  {
    assert Init(s + [x]) == s;
  }

  lemma {:induction false} ReplacedConcat(a: Text, b: Text, c: Byte, entity: Text)
    ensures Replaced(a + b, c, entity) == Replaced(a, c, entity) + Replaced(b, c, entity)
  {
    if b == [] {
      assert a + b == a;
    } else {
      var b', x := Init(b), Last(b);
      ReplacedConcat(a, b', c, entity);
      hide *;
      InitLast(b);
      assert a + b == (a + b') + [x];
      ReplacedSnoc(a + b', x, c, entity);
      ReplacedSnoc(b', x, c, entity);
    }
  }

  lemma InitLast(s: Text)
    requires s != []
    ensures s == Init(s) + [Last(s)] && |Init(s)| == |s| - 1
  {
  }

  lemma {:induction false} ReplacedNothing(s: Text, c: Byte, entity: Text)
    requires forall i :: 0 <= i < |s| ==> s[i] != c
    ensures Replaced(s, c, entity) == s
    decreases |s|
  {
    if s != [] {
      InitLast(s);
      hide *;
      assert Last(s) == s[|s| - 1];
      ReplacedNothing(Init(s), c, entity);
      ReplacedSnoc(Init(s), Last(s), c, entity);
    }
  }

  lemma PassesConcat(a: Text, b: Text)
    ensures Passes(a + b) == Passes(a) + Passes(b)
  {
    hide Replaced, Entity;
    var a1, b1 := Replaced(a, AMP, Entity(AMP)), Replaced(b, AMP, Entity(AMP));
    var a2, b2 := Replaced(a1, LT, Entity(LT)), Replaced(b1, LT, Entity(LT));
    var a3, b3 := Replaced(a2, GT, Entity(GT)), Replaced(b2, GT, Entity(GT));
    var a4, b4 := Replaced(a3, APOS, Entity(APOS)), Replaced(b3, APOS, Entity(APOS));
    ReplacedConcat(a, b, AMP, Entity(AMP));
    ReplacedConcat(a1, b1, LT, Entity(LT));
    ReplacedConcat(a2, b2, GT, Entity(GT));
    ReplacedConcat(a3, b3, APOS, Entity(APOS));
    ReplacedConcat(a4, b4, QUOT, Entity(QUOT));
  }

  lemma ReplacedOne(x: Byte, c: Byte, entity: Text)
    ensures Replaced([x], c, entity) == if x == c then entity else [x]
  {
    assert Init([x]) == [];
  }

  // An entity has no other special character in it than its '&'.
  lemma EntityIsPlain(x: Byte, c: Byte)
    requires x in {AMP, LT, GT, APOS, QUOT} && c in {LT, GT, APOS, QUOT}
    ensures Replaced(Entity(x), c, Entity(c)) == Entity(x)
  {
    ReplacedNothing(Entity(x), c, Entity(c));
  }

  lemma OnePass(x: Byte, c: Byte)
    requires c in {LT, GT, APOS, QUOT}
    ensures Replaced([x], c, Entity(c)) == if x == c then Entity(x) else [x]
    ensures x in {AMP, LT, GT, APOS, QUOT} ==> Replaced(Entity(x), c, Entity(c)) == Entity(x)
  {
    ReplacedOne(x, c, Entity(c));
    if x in {AMP, LT, GT, APOS, QUOT} {
      EntityIsPlain(x, c);
    }
  }

  lemma PassesOne(x: Byte)
    ensures Passes([x]) == Entity(x)
  {
    hide *;
    ReplacedOne(x, AMP, Entity(AMP));
    OnePass(x, LT);
    OnePass(x, GT);
    OnePass(x, APOS);
    OnePass(x, QUOT);
    PassesValue([x]);
    EntityCases(x);
  }

  lemma PassesValue(s: Text)
    ensures var r1 := Replaced(s, AMP, Entity(AMP));
            var r2 := Replaced(r1, LT, Entity(LT));
            var r3 := Replaced(r2, GT, Entity(GT));
            var r4 := Replaced(r3, APOS, Entity(APOS));
            Passes(s) == Replaced(r4, QUOT, Entity(QUOT))
  {
    hide Replaced, Entity;
  }

  lemma EntityCases(x: Byte)
    ensures AMP != LT && AMP != GT && AMP != APOS && AMP != QUOT && LT != GT && LT != APOS && LT != QUOT
    ensures GT != APOS && GT != QUOT && APOS != QUOT
    ensures x !in {AMP, LT, GT, APOS, QUOT} ==> Entity(x) == [x]
  {
  }

  // The five passes, each over the output of the one before, leave what earlier
  // passes have put in: '&' is replaced first, and no entity has a later character.
  lemma {:induction false} FivePasses(s: Text)
    ensures Passes(s) == Escaped(s)
  {
    hide Passes, Entity;
    if s == [] {
      PassesNothing();
    } else {
      FivePasses(Init(s));
      assert s == Init(s) + [Last(s)];
      PassesConcat(Init(s), [Last(s)]);
      PassesOne(Last(s));
    }
  }

  lemma PassesNothing()
    ensures Passes([]) == []
  {
  }

  // What is left is free of markup, and nothing was lost: reading the entities back
  // gives the text.
  predicate Plain(s: Text)
  {
    forall i :: 0 <= i < |s| ==> s[i] !in {LT, GT, APOS, QUOT}
  }

  lemma {:induction false} EscapedIsPlain(s: Text)
    ensures Plain(Escaped(s))
  {
    hide Entity, Plain;
    if s == [] {
      NothingPlain();
    } else {
      EscapedIsPlain(Init(s));
      PlainSnoc(Escaped(Init(s)), Last(s));
    }
  }

  lemma NothingPlain()
    ensures Plain([])
  {
  }

  lemma PlainSnoc(s: Text, c: Byte)
    requires Plain(s)
    ensures Plain(s + Entity(c))
  {
  }

  predicate HeadIs(s: Text, head: Text)
  {
    |head| <= |s| && s[..|head|] == head
  }

  // The character whose entity s starts with, and the length of the entity.
  function ReadOne(s: Text): (r: (Byte, nat))
    requires s != []
    ensures 1 <= r.1 <= |s|
  {
    if HeadIs(s, Entity(AMP)) then (AMP, 5)
    else if HeadIs(s, Entity(LT)) then (LT, 4)
    else if HeadIs(s, Entity(GT)) then (GT, 4)
    else if HeadIs(s, Entity(APOS)) then (APOS, 6)
    else if HeadIs(s, Entity(QUOT)) then (QUOT, 6)
    else (s[0], 1)
  }

  function Unescaped(s: Text): Text
    decreases |s|
  {
    if s == [] then [] else [ReadOne(s).0] + Unescaped(s[ReadOne(s).1..])
  }

  lemma ReadEntity(c: Byte, more: Text)
    ensures Entity(c) + more != [] && ReadOne(Entity(c) + more) == (c, |Entity(c)|)
  {
    var s, e := Entity(c) + more, Entity(c);
    assert s[..|e|] == e && s[0] == e[0];
    if c in {AMP, LT, GT, APOS, QUOT} {
      assert s[1] == e[1] && s[2] == e[2];
    }
  }

  lemma EscapedSnoc(s: Text, x: Byte)
    ensures Escaped(s + [x]) == Escaped(s) + Entity(x)
  {
    hide Entity;
    assert Init(s + [x]) == s;
  }

  lemma {:induction false} EscapedConcat(a: Text, b: Text)
    ensures Escaped(a + b) == Escaped(a) + Escaped(b)
    decreases |b|
  {
    hide *;
    if b == [] {
      EscapedNothing();
      assert a + b == a;
    } else {
      var b', x := Init(b), Last(b);
      InitLast(b);
      EscapedConcat(a, b');
      assert a + b == (a + b') + [x];
      EscapedSnoc(a + b', x);
      EscapedSnoc(b', x);
    }
  }

  lemma {:induction false} UnescapingUndoes(s: Text)
    ensures Unescaped(Escaped(s)) == s
  {
    hide Entity, ReadOne, Escaped;
    if s == [] {
      EscapedNothing();
    } else {
      var c, more := s[0], s[1..];
      UnescapingUndoes(more);
      assert s == [c] + more;
      EscapedConcat([c], more);
      EscapedOne(c);
      ReadEntity(c, Escaped(more));
      assert (Entity(c) + Escaped(more))[|Entity(c)|..] == Escaped(more);
    }
  }

  lemma EscapedNothing()
    ensures Escaped([]) == []
  {
  }

  lemma EscapedOne(c: Byte)
    ensures Escaped([c]) == Entity(c)
  {
    assert Init([c]) == [];
  }

  // The five entities.
  lemma Entities()
    ensures Escaped(Chars("&")) == Chars("&amp;") && Escaped(Chars("<")) == Chars("&lt;")
    ensures Escaped(Chars(">")) == Chars("&gt;") && Escaped(Chars("\"")) == Chars("&quot;")
    ensures Escaped(Chars("'")) == Chars("&apos;")
  {
    hide Escaped;
    EntityIs(0x26, "&", "&amp;");
    EntityIs(0x3C, "<", "&lt;");
    EntityIs(0x3E, ">", "&gt;");
    EntityIs(0x22, "\"", "&quot;");
    EntityIs(0x27, "'", "&apos;");
  }

  predicate IsText(s: Text, chars: string)
  {
    |s| == |chars| && forall i :: 0 <= i < |s| ==> s[i] == chars[i] as int
  }

  lemma EntityIs(c: Byte, one: string, entity: string)
    requires IsText([c], one) && IsText(Entity(c), entity)
    requires (forall i :: 0 <= i < |one| ==> one[i] as int < 0x80) && forall i :: 0 <= i < |entity| ==>
             entity[i] as int < 0x80
    ensures Escaped(Chars(one)) == Chars(entity)
  {
    EscapedOne(c);
    hide Escaped, Entity;
    assert Chars(one) == [c] && Chars(entity) == Entity(c);
  }

  // Any other character stays.
  lemma OthersStay(c: Byte)
    requires c !in Chars("&<>\"'")
    ensures Escaped([c]) == [c]
  {
    EscapedOne(c);
    hide Escaped;
    var special := Chars("&<>\"'");
    assert special[0] == 0x26 && special[1] == 0x3C && special[2] == 0x3E && special[3] == 0x22 && special[4] == 0x27;
  }
}
