/**
 Reading undoes writing: what the table readers return from a file that holds
 a table is what the table in memory holds.
 */
module RoundTrip {
  import opened Common
  import opened LayoutStructs
  import opened IndexFile
  import opened DiskLayout
  import opened DiskRegions
  import opened LossyNames
  import opened HashTableReader
  import opened TableReaders
  import opened Tables
  import opened Fnv

  // ----- the three kinds of table -----

  ghost predicate IsDocTable(t: Table<Value>)
  {
    WellFormed(t) && forall b, j :: 0 <= b < |t| && 0 <= j < |t[b].kvs| ==> t[b].kvs[j].value.DocName?
  }

  ghost predicate IsPostingTable(t: Table<Value>)
  {
    WellFormed(t) && forall b, j :: 0 <= b < |t| && 0 <= j < |t[b].kvs| ==> t[b].kvs[j].value.Positions?
  }

  // Words are filed under their hash, each with a table of documents.
  ghost predicate IsIndexTable(t: Table<Value>)
  {
    WellFormed(t) && forall b, j :: 0 <= b < |t| && 0 <= j < |t[b].kvs| ==> IsPostings(t[b].kvs[j])
  }

  ghost predicate IsPostings(kv: KV<Value>)
  {
    kv.value.Postings? && kv.key == FnvHash(kv.value.word) && IsPostingTable(kv.value.table)
  }

  // ----- single elements -----

  lemma ElementParts(s: seq<Byte>, pos: int, header: seq<Byte>, rest: seq<Byte>)
    requires Holds(s, pos, header + rest)
    ensures ReadAt(s, pos, |header|) == Some(header) && Holds(s, pos + |header|, rest)
    ensures ReadAt(s, pos + |header|, |rest|) == Some(rest)
  {
    HoldsConcat(s, pos, header, rest);
  }

  lemma DocNameElementFacts(s: seq<Byte>, pos: int, kv: KV<Value>)
    requires HoldsElement(s, pos, kv) && kv.value.DocName?
    ensures var name := kv.value.name;
            Holds(s, pos, DoctableElementHeader(kv.key, |name|).ToDisk() + name) && |name| <= MAX_INT16
  {
    WholeName(kv.value.name);
    hide NameCells, Holds;
  }

  lemma DocNameElement(s: seq<Byte>, pos: int, kv: KV<Value>)
    requires HoldsElement(s, pos, kv) && kv.value.DocName?
    ensures DoctableHeaderAt(s, pos) == Some(DoctableElementHeader(kv.key, |kv.value.name|))
    ensures ReadAt(s, pos + 10, |kv.value.name|) == Some(kv.value.name)
  {
    var h, name := DoctableElementHeader(kv.key, |kv.value.name|), kv.value.name;
    DocNameElementFacts(s, pos, kv);
    hide HoldsElement, Holds, NameCells;
    ElementParts(s, pos, h.ToDisk(), name);
    DoctableElementHeaderRoundTrip(h);
    Pow256Values();
  }

  lemma {:induction false} PositionsReadBack(s: seq<Byte>, pos: int, ps: seq<Position>, n: nat)
    requires Holds(s, pos, PositionsBytes(ps)) && n <= |ps|
    ensures WordPositionsAt(s, pos, n) == Some(ps[..n])
  {
    hide *;
    WordPositionsNext(s, pos, n);
    if n > 0 {
      PositionsReadBack(s, pos, ps, n - 1);
      PositionsSlice(ps, n - 1);
      HoldsPart(s, pos, PositionsBytes(ps), 4 * (n - 1), 4 * n);
      ReadHeld(s, pos + 4 * (n - 1), BigEndian(ps[n - 1], 4));
      UnsignedRoundTrip(ps[n - 1], 4);
      Pow256Values();
      assert ps[..n] == ps[..n - 1] + [ps[n - 1]];
    }
  }

  lemma WordPositionsNext(s: seq<Byte>, pos: int, n: nat)
    ensures WordPositionsAt(s, pos, 0) == Some([])
    ensures n > 0 && WordPositionsAt(s, pos, n - 1).Some? && ReadAt(s, pos + 4 * (n - 1), 4).Some? ==>
              WordPositionsAt(s, pos, n)
              == Some(WordPositionsAt(s, pos, n - 1).value + [Unsigned(ReadAt(s, pos + 4 * (n - 1), 4).value)])
  {
    hide ReadAt, Unsigned;
  }

  lemma {:induction false} PositionsSlice(ps: seq<Position>, j: nat)
    requires j < |ps|
    ensures PositionsBytes(ps)[4 * j..4 * (j + 1)] == BigEndian(ps[j], 4)
  {
    hide BigEndian;
    SliceOfConcat(PositionsBytes(Init(ps)), BigEndian(Last(ps), 4), 4 * j, 4 * (j + 1));
    if j < |ps| - 1 {
      PositionsSlice(Init(ps), j);
    }
  }

  lemma PositionsElementFacts(s: seq<Byte>, pos: int, kv: KV<Value>)
    requires HoldsElement(s, pos, kv) && kv.value.Positions?
    ensures var ps := kv.value.positions;
            Holds(s, pos, DocIDElementHeader(kv.key, |ps|).ToDisk() + PositionsBytes(ps)) && |ps| <= MAX_INT32
  {
    hide Holds, PositionsBytes, BigEndian;
  }

  lemma DocIDHeaderFits(h: DocIDElementHeader)
    requires 0 <= h.docId < 0x1_0000_0000_0000_0000 && 0 <= h.numPositions <= MAX_INT32
    ensures DocIDElementHeader.FromDisk(h.ToDisk()) == h
  {
    DocIDElementHeaderRoundTrip(h);
    Pow256Values();
  }

  lemma DocIDHeaderAtValue(s: seq<Byte>, pos: int, b: seq<Byte>)
    requires ReadAt(s, pos, 12) == Some(b)
    ensures DocIDHeaderAt(s, pos) == Some(DocIDElementHeader.FromDisk(b))
  {
  }

  lemma PositionsElement(s: seq<Byte>, pos: int, kv: KV<Value>)
    requires HoldsElement(s, pos, kv) && kv.value.Positions?
    ensures DocIDHeaderAt(s, pos) == Some(DocIDElementHeader(kv.key, |kv.value.positions|))
    ensures WordPositionsAt(s, pos + 12, |kv.value.positions|) == Some(kv.value.positions)
  {
    hide *;
    PositionsElementFacts(s, pos, kv);
    var h, ps := DocIDElementHeader(kv.key, |kv.value.positions|), kv.value.positions;
    ElementParts(s, pos, h.ToDisk(), PositionsBytes(ps));
    DocIDHeaderFits(h);
    DocIDHeaderAtValue(s, pos, h.ToDisk());
    PositionsReadBack(s, pos + 12, ps, |ps|);
    assert ps[..|ps|] == ps;
  }

  lemma PostingsElementFacts(s: seq<Byte>, pos: int, kv: KV<Value>)
    requires HoldsElement(s, pos, kv) && kv.value.Postings?
    ensures var word, table := kv.value.word, kv.value.table;
            && Holds(s, pos, WordPostingsHeader(|word|, TableSize(table)).ToDisk() + word
                                + TableCells(table, pos + 6 + |word|))
            && 0 <= pos && 0 <= TableSize(table) && pos + 6 + |word| + TableSize(table) <= MAX_INT32
            && |word| <= MAX_INT16 && EncodableTable(table) && !TableHasEmptyWord(table)
  {
    WrittenAll(kv.value.word);
    hide Holds, TableSize, TableCells, EncodableTable, TableHasEmptyWord, Written;
  }

  lemma HeaderFits(h: WordPostingsHeader)
    requires 0 <= h.wordBytes <= MAX_INT16 && 0 <= h.postingsBytes <= MAX_INT32
    ensures WordPostingsHeader.FromDisk(h.ToDisk()) == h
  {
    WordPostingsHeaderRoundTrip(h);
    Pow256Values();
  }

  lemma IsWordAtValue(s: seq<Byte>, pos: int, h: WordPostingsHeader, w: seq<Byte>, word: seq<Byte>)
    requires ReadAt(s, pos, 6) == Some(h.ToDisk()) && WordPostingsHeader.FromDisk(h.ToDisk()) == h
    requires h.wordBytes == |w| && ReadAt(s, pos + 6, |w|) == Some(w)
    ensures IsWordAt(s, pos, word) == Some(word == w)
  {
    hide ReadAt, BigEndian, Signed;
  }

  lemma PostingsElement(s: seq<Byte>, pos: int, kv: KV<Value>, word: seq<Byte>)
    requires HoldsElement(s, pos, kv) && kv.value.Postings?
    ensures IsWordAt(s, pos, word) == Some(word == kv.value.word)
    ensures HoldsTable(s, pos + 6 + |kv.value.word|, kv.value.table)
  {
    hide *;
    PostingsElementFacts(s, pos, kv);
    var w, table := kv.value.word, kv.value.table;
    var h, nested := WordPostingsHeader(|w|, TableSize(table)), TableCells(table, pos + 6 + |w|);
    HoldsConcat(s, pos, h.ToDisk() + w, nested);
    ElementParts(s, pos, h.ToDisk(), w);
    HeaderFits(h);
    IsWordAtValue(s, pos, h, w, word);
    HoldsTableIntro(s, pos + 6 + |w|, table);
  }

  // ----- searching a chain -----

  ghost predicate HoldsChain(s: seq<Byte>, ps: seq<int>, kvs: seq<KV<Value>>)
  {
    |ps| == |kvs| && forall j :: 0 <= j < |ps| ==> HoldsElement(s, ps[j], kvs[j])
  }

  lemma ChainTail(s: seq<Byte>, ps: seq<int>, kvs: seq<KV<Value>>)
    requires HoldsChain(s, ps, kvs) && kvs != []
    ensures HoldsChain(s, ps[1..], kvs[1..]) && HoldsElement(s, ps[0], kvs[0])
  {
  }

  // The outcome of looking for a document in a chain of positions.
  function PositionsIn(kvs: seq<KV<Value>>, docId: Key): Option<seq<int>>
    requires forall kv :: kv in kvs ==> kv.value.Positions?
  {
    match FindIn(kvs, docId)
    case None => None
    case Some(kv) => Some(kv.value.positions)
  }

  lemma {:induction false} FirstDocOfChain(s: seq<Byte>, ps: seq<int>, kvs: seq<KV<Value>>, docId: Key)
    requires HoldsChain(s, ps, kvs) && forall kv :: kv in kvs ==> kv.value.Positions?
    ensures FirstDoc(s, ps, docId) == Some(PositionsIn(kvs, docId))
  {
    hide HoldsChain, DocIDHeaderAt, WordPositionsAt;
    HoldsChainLength(s, ps, kvs);
    if kvs != [] {
      ChainTail(s, ps, kvs);
      PositionsElement(s, ps[0], kvs[0]);
      FirstDocOfChain(s, ps[1..], kvs[1..], docId);
    }
  }

  lemma HoldsChainLength(s: seq<Byte>, ps: seq<int>, kvs: seq<KV<Value>>)
    requires HoldsChain(s, ps, kvs)
    ensures |ps| == |kvs|
  {
  }

  function NameIn(kvs: seq<KV<Value>>, docId: Key): Option<seq<Byte>>
    requires forall kv :: kv in kvs ==> kv.value.DocName?
  {
    match FindIn(kvs, docId)
    case None => None
    case Some(kv) => Some(kv.value.name)
  }

  lemma {:induction false} FirstNameOfChain(s: seq<Byte>, ps: seq<int>, kvs: seq<KV<Value>>, docId: Key)
    requires HoldsChain(s, ps, kvs) && forall kv :: kv in kvs ==> kv.value.DocName?
    ensures FirstName(s, ps, docId) == Some(NameIn(kvs, docId))
  {
    hide HoldsChain, DoctableHeaderAt, ReadAt;
    HoldsChainLength(s, ps, kvs);
    if kvs != [] {
      ChainTail(s, ps, kvs);
      DocNameElement(s, ps[0], kvs[0]);
      FirstNameOfChain(s, ps[1..], kvs[1..], docId);
    }
  }

  // The place of the first pair for a word, or the length of the chain.
  function WordIndex(kvs: seq<KV<Value>>, word: seq<Byte>): (i: nat)
    requires forall kv :: kv in kvs ==> kv.value.Postings?
    ensures i <= |kvs|
    ensures i < |kvs| ==> kvs[i].value.word == word
    ensures forall k :: 0 <= k < i ==> kvs[k].value.word != word
  {
    if kvs == [] then 0 else if kvs[0].value.word == word then 0 else 1 + WordIndex(kvs[1..], word)
  }

  lemma {:induction false} FirstWordOfChain(s: seq<Byte>, ps: seq<int>, kvs: seq<KV<Value>>, word: seq<Byte>)
    requires HoldsChain(s, ps, kvs) && forall kv :: kv in kvs ==> kv.value.Postings?
    ensures |ps| == |kvs|
    ensures var i := WordIndex(kvs, word);
            FirstWord(s, ps, word) == Some(if i < |kvs| then Some(ps[i]) else None)
  {
    hide HoldsChain, IsWordAt;
    HoldsChainLength(s, ps, kvs);
    if kvs != [] {
      ChainTail(s, ps, kvs);
      PostingsElement(s, ps[0], kvs[0], word);
      FirstWordOfChain(s, ps[1..], kvs[1..], word);
    }
  }

  lemma {:induction false} WordIndexFinds(kvs: seq<KV<Value>>, word: seq<Byte>)
    requires DistinctKeys(kvs)
    requires forall j :: 0 <= j < |kvs| ==> kvs[j].value.Postings? && kvs[j].key == FnvHash(kvs[j].value.word)
    ensures var i, found := WordIndex(kvs, word), FindIn(kvs, FnvHash(word));
            && (i < |kvs| <==> found.Some? && found.value.value.word == word)
            && (i < |kvs| ==> found.value == kvs[i])
  {
    hide FnvHash;
    var i := WordIndex(kvs, word);
    if i < |kvs| {
      FindInIsMember(kvs, kvs[i]);
    }
  }

  // ----- the readers on a written table -----

  // The documents table of a word in the index in memory.
  function PostingsOf(t: Table<Value>, word: seq<Byte>): Option<Table<Value>>
    requires |t| > 0
  {
    match Find(t, FnvHash(word))
    case None => None
    case Some(kv) => if kv.value.Postings? && kv.value.word == word then Some(kv.value.table) else None
  }

  lemma ChainOfTable(s: seq<Byte>, off: int, t: Table<Value>, key: Key)
    requires HoldsTable(s, off, t) && |t| > 0
    ensures NumBucketsAt(s, off) == Some(|t|)
    ensures var ps := ElementPositions(s, off, |t|, key);
            ps.Some? && HoldsChain(s, ps.value, t[BucketNum(t, key)].kvs)
  {
    hide HoldsTable, HoldsElement, ElementPositions, NumBucketsAt;
    WalkFindsBucket(s, off, t, key);
  }

  lemma BucketKind(t: Table<Value>, b: nat, kv: KV<Value>)
    requires b < |t| && kv in t[b].kvs
    ensures IsDocTable(t) ==> kv.value.DocName?
    ensures IsPostingTable(t) ==> kv.value.Positions?
    ensures IsIndexTable(t) ==> IsPostings(kv)
  {
  }

  // DocTableReader.LookupDocID on a written doctable is a lookup in the doctable.
  lemma DocNameReadBack(s: seq<Byte>, off: int, t: Table<Value>, docId: Key)
    requires HoldsTable(s, off, t) && IsDocTable(t)
    ensures DocNameAt(s, off, |t|, docId)
            == Some(match Find(t, docId) case None => None case Some(kv) => Some(kv.value.name))
  {
    hide HoldsTable, HoldsChain, ElementPositions, FirstName, IsDocTable;
    DocTableWellFormed(t);
    ChainOfTable(s, off, t, docId);
    var b := BucketNum(t, docId);
    forall kv | kv in t[b].kvs
      ensures kv.value.DocName?
    {
      BucketKind(t, b, kv);
    }
    FirstNameOfChain(s, ElementPositions(s, off, |t|, docId).value, t[b].kvs, docId);
  }

  lemma DocTableWellFormed(t: Table<Value>)
    ensures IsDocTable(t) || IsPostingTable(t) || IsIndexTable(t) ==> WellFormed(t)
  {
  }

  // DocIDTableReader.LookupDocID on a written table finds the positions, in order.
  lemma DocPositionsReadBack(s: seq<Byte>, off: int, t: Table<Value>, docId: Key)
    requires HoldsTable(s, off, t) && IsPostingTable(t)
    ensures DocPositions(s, off, |t|, docId)
         == Some(match Find(t, docId) case None => None case Some(kv) => Some(kv.value.positions))
  {
    hide HoldsTable, HoldsChain, ElementPositions, FirstDoc, IsPostingTable;
    DocTableWellFormed(t);
    ChainOfTable(s, off, t, docId);
    var b := BucketNum(t, docId);
    forall kv | kv in t[b].kvs
      ensures kv.value.Positions?
    {
      BucketKind(t, b, kv);
    }
    FirstDocOfChain(s, ElementPositions(s, off, |t|, docId).value, t[b].kvs, docId);
  }

  lemma ChainOfWords(t: Table<Value>, b: nat)
    requires IsIndexTable(t) && b < |t|
    ensures DistinctKeys(t[b].kvs)
    ensures forall kv :: kv in t[b].kvs ==> kv.value.Postings? && kv.key == FnvHash(kv.value.word)
  {
    hide FnvHash;
    forall kv | kv in t[b].kvs
      ensures kv.value.Postings? && kv.key == FnvHash(kv.value.word)
    {
      BucketKind(t, b, kv);
    }
  }

  lemma PostingsOfBucket(t: Table<Value>, word: seq<Byte>)
    requires |t| > 0
    ensures var found := FindIn(t[BucketNum(t, FnvHash(word))].kvs, FnvHash(word));
            PostingsOf(t, word) ==
            if found.Some? && found.value.value.Postings? && found.value.value.word == word
            then Some(found.value.value.table) else None
  {
    hide FnvHash, FindIn;
  }

  lemma WordTableOffsetValue(s: seq<Byte>, off: int, n: int, word: seq<Byte>)
    requires ElementPositions(s, off, n, FnvHash(word)).Some?
    ensures var r := FirstWord(s, ElementPositions(s, off, n, FnvHash(word)).value, word);
            WordTableOffset(s, off, n, word) ==
            match r
            case None => None
            case Some(None) => Some(None)
            case Some(Some(pos)) => Some(Some(ToSigned(pos + 6 + |word|, 4)))
  {
    hide FnvHash, ElementPositions, FirstWord;
  }

  lemma TableSizeNat(t: Table<Value>)
    ensures 0 <= TableSize(t)
  {
  }

  // IndexTableReader.LookupWord on a written index finds a word exactly when
  // the index has it, and then the file holds its table where the reader looks.
  lemma WordReadBack(s: seq<Byte>, off: int, t: Table<Value>, word: seq<Byte>)
    requires HoldsTable(s, off, t) && IsIndexTable(t)
    ensures var r := WordTableOffset(s, off, |t|, word);
            && r.Some?
            && (r.value.Some? <==> PostingsOf(t, word).Some?)
            && (r.value.Some? ==> HoldsTable(s, r.value.value, PostingsOf(t, word).value))
  {
    hide *;
    DocTableWellFormed(t);
    var key := FnvHash(word);
    ChainOfTable(s, off, t, key);
    var b := BucketNum(t, key);
    var kvs, ps := t[b].kvs, ElementPositions(s, off, |t|, key).value;
    ChainOfWords(t, b);
    FirstWordOfChain(s, ps, kvs, word);
    WordIndexFinds(kvs, word);
    PostingsOfBucket(t, word);
    WordTableOffsetValue(s, off, |t|, word);
    var i := WordIndex(kvs, word);
    if i < |kvs| {
      ChainElement(s, ps, kvs, i);
      PostingsElement(s, ps[i], kvs[i], word);
      HoldsTableRange(s, ps[i] + 6 + |word|, kvs[i].value.table);
      TableSizeNat(kvs[i].value.table);
      SignedOffset(ps[i] + 6 + |word|);
    }
  }

  lemma ChainElement(s: seq<Byte>, ps: seq<int>, kvs: seq<KV<Value>>, i: nat)
    requires HoldsChain(s, ps, kvs) && i < |kvs|
    ensures |ps| == |kvs| && HoldsElement(s, ps[i], kvs[i])
  {
  }

  // ----- listing a whole table -----

  function HeadersOf(kvs: seq<KV<Value>>): (r: seq<DocIDElementHeader>)
    requires forall kv :: kv in kvs ==> kv.value.Positions?
    ensures |r| == |kvs|
    ensures forall i :: 0 <= i < |kvs| ==> r[i] == DocIDElementHeader(kvs[i].key, |kvs[i].value.positions|)
  {
    if kvs == [] then [] else HeadersOf(Init(kvs)) + [DocIDElementHeader(Last(kvs).key, |Last(kvs).value.positions|)]
  }

  lemma HeadersNone()
    ensures HeadersOf([]) == []
  {
  }

  lemma HeadersLast(kvs: seq<KV<Value>>)
    requires kvs != [] && forall kv :: kv in kvs ==> kv.value.Positions?
    ensures forall kv :: kv in Init(kvs) ==> kv.value.Positions?
    ensures HeadersOf(kvs) == HeadersOf(Init(kvs)) + [DocIDElementHeader(Last(kvs).key, |Last(kvs).value.positions|)]
  {
  }

  // A position record of a written table leads to the header of its element.
  lemma ListedHeaderOfTable(s: seq<Byte>, off: int, t: Table<Value>, b: nat, j: nat)
    requires HoldsTable(s, off, t) && b < |t| && j < |t[b].kvs| && t[b].kvs[j].value.Positions?
    ensures ListedHeaderAt(s, BucketOffset(t, off, b) + 4 * j)
         == Some(DocIDElementHeader(t[b].kvs[j].key, |t[b].kvs[j].value.positions|))
  {
    hide *;
    HeldElement(s, off, t, b, j);
    var pos, epos := BucketOffset(t, off, b) + 4 * j, ElementAt(t, off, b, j);
    ReadHeld(s, pos, BigEndian(epos, 4));
    SignedFits(epos);
    PositionsElement(s, epos, t[b].kvs[j]);
    ListedHeaderAtValue(s, pos, BigEndian(epos, 4));
  }

  lemma SignedFits(x: int)
    requires 0 <= x <= MAX_INT32
    ensures Signed(BigEndian(x, 4)) == x
  {
    SignedRoundTrip(x, 4);
    Pow256Values();
  }

  lemma ListedHeaderAtValue(s: seq<Byte>, pos: int, b: seq<Byte>)
    requires ReadAt(s, pos, 4) == Some(b)
    ensures ListedHeaderAt(s, pos) == DocIDHeaderAt(s, Signed(b))
  {
  }

  lemma {:induction false} BucketHeadersOfTable(s: seq<Byte>, off: int, t: Table<Value>, b: nat, n: nat)
    requires HoldsTable(s, off, t) && IsPostingTable(t) && b < |t| && n <= |t[b].kvs|
    ensures forall kv :: kv in t[b].kvs[..n] ==> kv.value.Positions?
    ensures BucketHeaders(s, BucketOffset(t, off, b), n) == Some(HeadersOf(t[b].kvs[..n]))
  {
    hide *;
    forall kv | kv in t[b].kvs[..n]
      ensures kv.value.Positions?
    {
      assert kv in t[b].kvs;
      BucketKind(t, b, kv);
    }
    var pos := BucketOffset(t, off, b);
    BucketHeadersNone(s, pos, n);
    HeadersNone();
    if n > 0 {
      BucketHeadersOfTable(s, off, t, b, n - 1);
      BucketHeadersNext(s, pos, n - 1);
      ListedHeaderOfTable(s, off, t, b, n - 1);
      PrefixSnoc(t[b].kvs, n - 1);
      HeadersLast(t[b].kvs[..n]);
    } else {
      assert t[b].kvs[..0] == [];
    }
  }

  lemma PairsArePositions(t: Table<Value>, n: nat)
    requires IsPostingTable(t) && n <= |t|
    ensures forall kv :: kv in AllPairs(t[..n]) ==> kv.value.Positions?
    ensures forall b, kv :: 0 <= b < |t| && kv in t[b].kvs ==> kv.value.Positions?
  {
    hide IsPostingTable, AllPairs;
    forall b, kv | 0 <= b < |t| && kv in t[b].kvs
      ensures kv.value.Positions?
    {
      BucketKind(t, b, kv);
    }
    forall kv | kv in AllPairs(t[..n])
      ensures kv.value.Positions?
    {
      AllPairsMember(t[..n], kv);
      var b :| 0 <= b < n && kv in t[..n][b].kvs;
      assert kv in t[b].kvs;
    }
  }

  lemma {:induction false} HeadersConcat(a: seq<KV<Value>>, b: seq<KV<Value>>)
    requires forall kv :: kv in a + b ==> kv.value.Positions?
    ensures (forall kv :: kv in a ==> kv.value.Positions?) && (forall kv :: kv in b ==> kv.value.Positions?)
    ensures HeadersOf(a + b) == HeadersOf(a) + HeadersOf(b)
  {
    hide HeadersOf;
    assert forall kv :: kv in a ==> kv in a + b;
    assert forall kv :: kv in b ==> kv in a + b;
    var all, one, two := HeadersOf(a + b), HeadersOf(a), HeadersOf(b);
    assert forall i :: 0 <= i < |a| ==> (a + b)[i] == a[i];
    assert forall i :: |a| <= i < |a + b| ==> (a + b)[i] == b[i - |a|];
  }

  lemma NothingListed(s: seq<Byte>, off: int, t: Table<Value>)
    ensures AllPairs(t[..0]) == [] && HeadersOf([]) == [] && DocIDList(s, off, 0) == Some([])
  {
  }

  lemma {:induction false} DocIDListOfTable(s: seq<Byte>, off: int, t: Table<Value>, n: nat)
    requires HoldsTable(s, off, t) && IsPostingTable(t) && n <= |t|
    ensures forall kv :: kv in AllPairs(t[..n]) ==> kv.value.Positions?
    ensures DocIDList(s, off, n) == Some(HeadersOf(AllPairs(t[..n])))
  {
    hide *;
    PairsArePositions(t, n);
    if n == 0 {
      NothingListed(s, off, t);
    } else {
      var kvs := t[n - 1].kvs;
      DocIDListOfTable(s, off, t, n - 1);
      BucketRecordOfTable(s, off, t, n - 1);
      BucketHeadersOfTable(s, off, t, n - 1, |kvs|);
      assert kvs[..|kvs|] == kvs;
      DocIDListNext(s, off, n - 1);
      PrefixSnoc(t, n - 1);
      AllPairsLast(t[..n]);
      HeadersConcat(AllPairs(t[..n - 1]), kvs);
    }
  }

  // DocIDTableReader.GetDocIDList on a written table lists every document once,
  // with its number of positions, in the order an iterator would visit them.
  lemma DocIDListReadBack(s: seq<Byte>, off: int, t: Table<Value>)
    requires HoldsTable(s, off, t) && IsPostingTable(t)
    ensures forall kv :: kv in AllPairs(t) ==> kv.value.Positions?
    ensures DocIDList(s, off, |t|) == Some(HeadersOf(AllPairs(t)))
  {
    DocIDListOfTable(s, off, t, |t|);
    assert t[..|t|] == t;
  }
}
