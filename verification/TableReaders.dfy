/**
 The three table readers (hw3/IndexTableReader.cc, hw3/DocIDTableReader.cc,
 hw3/DocTableReader.cc).  None again stands for a failed Verify333.
 */
module TableReaders {
  import opened Common
  import opened LayoutStructs
  import opened IndexFile
  import opened HashTableReader
  import opened Fnv

  // ----- IndexTableReader -----

  // Whether the element at pos is for the given word.
  function IsWordAt(s: seq<Byte>, pos: int, word: seq<Byte>): Option<bool>
  {
    match ReadAt(s, pos, 6)
    case None => None
    case Some(b) =>
      if WordPostingsHeader.FromDisk(b).wordBytes != |word| then Some(false)
      else
        match ReadAt(s, pos + 6, |word|)
        case None => None
        case Some(w) => Some(w == word)
  }

  // The first of the elements at ps that is for the word.
  function FirstWord(s: seq<Byte>, ps: seq<int>, word: seq<Byte>): Option<Option<int>>
  {
    if ps == [] then Some(None)
    else
      match IsWordAt(s, ps[0], word)
      case None => None
      case Some(found) => if found then Some(Some(ps[0])) else FirstWord(s, ps[1..], word)
  }

  // The offset of the docID table of a word, if the word is in the index table.
  function WordTableOffset(s: seq<Byte>, off: int, numBuckets: int, word: seq<Byte>): Option<Option<int>>
  {
    match ElementPositions(s, off, numBuckets, FnvHash(word))
    case None => None
    case Some(ps) =>
      match FirstWord(s, ps, word)
      case None => None
      case Some(None) => Some(None)
      case Some(Some(pos)) => Some(Some(ToSigned(pos + 6 + |word|, 4)))
  }

  class IndexTableReader {
    const base: HashTableReader

    constructor (base: HashTableReader)
      ensures this.base == base
    {
      this.base := base;
    }

    // Some(None) is the null pointer: the word is not in the index.
    method LookupWord(word: seq<Byte>) returns (r: Option<Option<DocIDTableReader>>)
      modifies base.file`pos
      ensures var found := WordTableOffset(base.file.bytes, base.offset, base.numBuckets, word);
              match found
              case None => r.None?
              case Some(None) => r == Some(None)
              case Some(Some(off)) =>
                match NumBucketsAt(base.file.bytes, off)
                case None => r.None?
                case Some(n) =>
                  && r.Some? && r.value.Some? && r.value.value.base.file.bytes == base.file.bytes
                  && fresh(r.value.value.base.file)
                  && r.value.value.base.offset == off && r.value.value.base.numBuckets == n
    {
      var wordHash := FNVHash64(word);
      var elements := base.LookupElementPositions(wordHash);
      if elements.None? {
        return None;
      }
      var ps := elements.value;
      for k := 0 to |ps|
        invariant FirstWord(base.file.bytes, ps, word) == FirstWord(base.file.bytes, ps[k..], word)
      {
        assert ps[k..][1..] == ps[k + 1..];
        var isWord := ElementIsWord(ps[k], word);
        if isWord.None? {
          return None;
        }
        if isWord.value {
          var table := HashTableReader.Open(base.file.bytes, ToSigned(ps[k] + 6 + |word|, 4));
          if table.None? {
            return None;
          }
          var ditr := new DocIDTableReader(table.value);
          return Some(Some(ditr));
        }
      }
      r := Some(None);
    }

    // The body of the loop of LookupWord: compare lengths, then characters.
    method ElementIsWord(pos: int, word: seq<Byte>) returns (r: Option<bool>)
      modifies base.file`pos
      ensures r == IsWordAt(base.file.bytes, pos, word)
    {
      var ok := base.file.Seek(pos);
      if !ok {
        return None;
      }
      var b := base.file.ReadItem(6);
      if b.None? {
        return None;
      }
      var header := WordPostingsHeader.FromDisk(b.value);
      if header.wordBytes != |word| {
        return Some(false);
      }
      var w := ReadCharacters(base.file, header.wordBytes);
      r := if w.None? then None else Some(w.value == word);
    }
  }

  // n characters, read one at a time.
  method ReadCharacters(f: File, n: int) returns (r: Option<seq<Byte>>)
    modifies f`pos
    ensures r == ReadAt(f.bytes, old(f.pos), if n < 0 then 0 else n) || (n <= 0 && r == Some([]))
  {
    var ss: seq<Byte> := [];
    var i := 0;
    while i < n
      invariant 0 <= i && (i <= n || i == 0)
      invariant f.pos == old(f.pos) + i
      invariant i > 0 ==> old(f.pos) + i <= |f.bytes|
      invariant |ss| == i && (i > 0 ==> ss == f.bytes[old(f.pos)..old(f.pos) + i])
    {
      var nextChar := f.ReadItem(1);
      if nextChar.None? {
        return None;
      }
      ss := ss + nextChar.value;
      i := i + 1;
    }
    r := Some(ss);
  }

  // ----- DocIDTableReader -----

  function DocIDHeaderAt(s: seq<Byte>, pos: int): Option<DocIDElementHeader>
  {
    match ReadAt(s, pos, 12)
    case None => None
    case Some(b) => Some(DocIDElementHeader.FromDisk(b))
  }

  // n consecutive word positions from pos.
  function WordPositionsAt(s: seq<Byte>, pos: int, n: int): Option<seq<int>>
  {
    if n <= 0 then Some([])
    else
      match WordPositionsAt(s, pos, n - 1)
      case None => None
      case Some(ps) =>
        match ReadAt(s, pos + 4 * (n - 1), 4)
        case None => None
        case Some(b) => Some(ps + [Unsigned(b)])
  }

  // The positions of the first of the elements at ps that is for the document.
  function FirstDoc(s: seq<Byte>, ps: seq<int>, docId: Key): Option<Option<seq<int>>>
  {
    if ps == [] then Some(None)
    else
      match DocIDHeaderAt(s, ps[0])
      case None => None
      case Some(h) =>
        if h.docId != docId then FirstDoc(s, ps[1..], docId)
        else
          match WordPositionsAt(s, ps[0] + 12, h.numPositions)
          case None => None
          case Some(list) => Some(Some(list))
  }

  function DocPositions(s: seq<Byte>, off: int, numBuckets: int, docId: Key): Option<Option<seq<int>>>
  {
    match ElementPositions(s, off, numBuckets, docId)
    case None => None
    case Some(ps) => FirstDoc(s, ps, docId)
  }

  // The headers that the first n position records from pos lead to.
  function BucketHeaders(s: seq<Byte>, pos: int, n: int): Option<seq<DocIDElementHeader>>
  {
    if n <= 0 then Some([])
    else
      match BucketHeaders(s, pos, n - 1)
      case None => None
      case Some(hs) =>
        match ListedHeaderAt(s, pos + 4 * (n - 1))
        case None => None
        case Some(h) => Some(hs + [h])
  }

  lemma BucketHeadersNone(s: seq<Byte>, pos: int, n: int)
    ensures BucketHeaders(s, pos, 0) == Some([]) && (n <= 0 ==> BucketHeaders(s, pos, n) == Some([]))
  {
  }

  lemma BucketHeadersNext(s: seq<Byte>, pos: int, n: nat)
    requires BucketHeaders(s, pos, n).Some?
    ensures var h := ListedHeaderAt(s, pos + 4 * n);
            BucketHeaders(s, pos, n + 1) == if h.None? then None else Some(BucketHeaders(s, pos, n).value + [h.value])
  {
    hide ListedHeaderAt;
  }

  // The header that the position record at pos leads to.
  function ListedHeaderAt(s: seq<Byte>, pos: int): Option<DocIDElementHeader>
  {
    match ReadAt(s, pos, 4)
    case None => None
    case Some(b) => DocIDHeaderAt(s, Signed(b))
  }

  // The element headers of the first n buckets, in order.
  function DocIDList(s: seq<Byte>, off: int, n: int): Option<seq<DocIDElementHeader>>
  {
    if n <= 0 then Some([])
    else
      match DocIDList(s, off, n - 1)
      case None => None
      case Some(hs) =>
        match BucketRecordAt(s, off, n - 1)
        case None => None
        case Some(r) =>
          match BucketHeaders(s, r.position, r.chainNumElements)
          case None => None
          case Some(more) => Some(hs + more)
  }

  lemma DocIDListNone(s: seq<Byte>, off: int, n: int)
    ensures DocIDList(s, off, 0) == Some([]) && (n <= 0 ==> DocIDList(s, off, n) == Some([]))
  {
  }

  lemma DocIDListNext(s: seq<Byte>, off: int, n: nat)
    requires DocIDList(s, off, n).Some?
    ensures BucketRecordAt(s, off, n).None? ==> DocIDList(s, off, n + 1).None?
    ensures BucketRecordAt(s, off, n).Some? ==>
              var r := BucketRecordAt(s, off, n).value;
              var more := BucketHeaders(s, r.position, r.chainNumElements);
              DocIDList(s, off, n + 1) == if more.None? then None else Some(DocIDList(s, off, n).value + more.value)
  {
    hide BucketHeaders, BucketRecordAt;
  }

  lemma {:induction false} BucketHeadersFail(s: seq<Byte>, pos: int, i: int, n: int)
    requires i <= n && BucketHeaders(s, pos, i).None?
    ensures BucketHeaders(s, pos, n).None?
    decreases n - i
  {
    if i < n {
      BucketHeadersFail(s, pos, i, n - 1);
    }
  }

  lemma {:induction false} DocIDListFail(s: seq<Byte>, off: int, i: int, n: int)
    requires i <= n && DocIDList(s, off, i).None?
    ensures DocIDList(s, off, n).None?
    decreases n - i
  {
    if i < n {
      DocIDListFail(s, off, i, n - 1);
    }
  }

  lemma {:induction false} WordPositionsFail(s: seq<Byte>, pos: int, i: int, n: int)
    requires i <= n && WordPositionsAt(s, pos, i).None?
    ensures WordPositionsAt(s, pos, n).None?
    decreases n - i
  {
    if i < n {
      WordPositionsFail(s, pos, i, n - 1);
    }
  }

  class DocIDTableReader {
    const base: HashTableReader

    constructor (base: HashTableReader)
      ensures this.base == base
    {
      this.base := base;
    }

    // Some(None) is the result false: the document is not in the table.
    method LookupDocID(docId: Key) returns (r: Option<Option<seq<int>>>)
      modifies base.file`pos
      ensures r == DocPositions(base.file.bytes, base.offset, base.numBuckets, docId)
    {
      var elements := base.LookupElementPositions(docId);
      if elements.None? {
        return None;
      }
      var ps := elements.value;
      for k := 0 to |ps|
        invariant FirstDoc(base.file.bytes, ps, docId) == FirstDoc(base.file.bytes, ps[k..], docId)
      {
        assert ps[k..][1..] == ps[k + 1..];
        var header := ReadHeader(ps[k]);
        if header.None? {
          return None;
        }
        if header.value.docId == docId {
          var list := ReadWordPositions(header.value.numPositions);
          return if list.None? then None else Some(Some(list.value));
        }
      }
      r := Some(None);
    }

    method ReadHeader(pos: int) returns (r: Option<DocIDElementHeader>)
      modifies base.file`pos
      ensures r == DocIDHeaderAt(base.file.bytes, pos)
      ensures r.Some? ==> base.file.pos == pos + 12
    {
      var ok := base.file.Seek(pos);
      if !ok {
        return None;
      }
      var b := base.file.ReadItem(12);
      r := if b.None? then None else Some(DocIDElementHeader.FromDisk(b.value));
    }

    method ReadWordPositions(n: int) returns (r: Option<seq<int>>)
      modifies base.file`pos
      ensures r == WordPositionsAt(base.file.bytes, old(base.file.pos), n)
    {
      var listPos: seq<int> := [];
      var i := 0;
      while i < n
        invariant 0 <= i && (i <= n || i == 0)
        invariant base.file.pos == old(base.file.pos) + 4 * i
        invariant WordPositionsAt(base.file.bytes, old(base.file.pos), i) == Some(listPos)
      {
        var b := base.file.ReadItem(4);
        if b.None? {
          WordPositionsFail(base.file.bytes, old(base.file.pos), i + 1, n);
          return None;
        }
        listPos := listPos + [Unsigned(b.value)];
        i := i + 1;
      }
      r := Some(listPos);
    }

    method GetDocIDList() returns (r: Option<seq<DocIDElementHeader>>)
      modifies base.file`pos
      ensures r == DocIDList(base.file.bytes, base.offset, base.numBuckets)
    {
      hide *;
      var docIdList: seq<DocIDElementHeader> := [];
      var i := 0;
      DocIDListNone(base.file.bytes, base.offset, base.numBuckets);
      while i < base.numBuckets
        invariant 0 <= i && (i <= base.numBuckets || i == 0)
        invariant DocIDList(base.file.bytes, base.offset, i) == Some(docIdList)
      {
        DocIDListNext(base.file.bytes, base.offset, i);
        var rec := base.ReadBucketRecord(i);
        if rec.None? {
          DocIDListFail(base.file.bytes, base.offset, i + 1, base.numBuckets);
          return None;
        }
        var more := ReadBucketHeaders(rec.value.position, rec.value.chainNumElements);
        if more.None? {
          DocIDListFail(base.file.bytes, base.offset, i + 1, base.numBuckets);
          return None;
        }
        docIdList := docIdList + more.value;
        i := i + 1;
      }
      r := Some(docIdList);
    }

    // Follow one position record to its element.
    method ReadListedHeader(pos: int) returns (r: Option<DocIDElementHeader>)
      modifies base.file`pos
      ensures r == ListedHeaderAt(base.file.bytes, pos)
    {
      var ok := base.file.Seek(pos);
      if !ok {
        return None;
      }
      var b := base.file.ReadItem(4);
      if b.None? {
        return None;
      }
      r := ReadHeader(Signed(b.value));
    }

    // The inner loop of GetDocIDList.
    method ReadBucketHeaders(pos: int, n: int) returns (r: Option<seq<DocIDElementHeader>>)
      modifies base.file`pos
      ensures r == BucketHeaders(base.file.bytes, pos, n)
    {
      hide *;
      var list: seq<DocIDElementHeader> := [];
      var j := 0;
      BucketHeadersNone(base.file.bytes, pos, n);
      while j < n
        invariant 0 <= j && (j <= n || j == 0)
        invariant BucketHeaders(base.file.bytes, pos, j) == Some(list)
      {
        BucketHeadersNext(base.file.bytes, pos, j);
        var element := ReadListedHeader(pos + 4 * j);
        if element.None? {
          BucketHeadersFail(base.file.bytes, pos, j + 1, n);
          return None;
        }
        list := list + [element.value];
        j := j + 1;
      }
      r := Some(list);
    }
  }

  // ----- DocTableReader -----

  function DoctableHeaderAt(s: seq<Byte>, pos: int): Option<DoctableElementHeader>
  {
    match ReadAt(s, pos, 10)
    case None => None
    case Some(b) => Some(DoctableElementHeader.FromDisk(b))
  }

  // The name in the first of the elements at ps that is for the document.
  function FirstName(s: seq<Byte>, ps: seq<int>, docId: Key): Option<Option<seq<Byte>>>
  {
    if ps == [] then Some(None)
    else
      match DoctableHeaderAt(s, ps[0])
      case None => None
      case Some(h) =>
        if h.docId != docId then FirstName(s, ps[1..], docId)
        else if h.fileNameBytes <= 0 then Some(Some([]))
        else
          match ReadAt(s, ps[0] + 10, h.fileNameBytes)
          case None => None
          case Some(name) => Some(Some(name))
  }

  function DocNameAt(s: seq<Byte>, off: int, numBuckets: int, docId: Key): Option<Option<seq<Byte>>>
  {
    match ElementPositions(s, off, numBuckets, docId)
    case None => None
    case Some(ps) => FirstName(s, ps, docId)
  }

  class DocTableReader {
    const base: HashTableReader

    constructor (base: HashTableReader)
      ensures this.base == base
    {
      this.base := base;
    }

    // Some(None) is the result false: the document is not in the table.
    method LookupDocID(docId: Key) returns (r: Option<Option<seq<Byte>>>)
      modifies base.file`pos
      ensures r == DocNameAt(base.file.bytes, base.offset, base.numBuckets, docId)
    {
      var elements := base.LookupElementPositions(docId);
      if elements.None? {
        return None;
      }
      var ps := elements.value;
      for k := 0 to |ps|
        invariant FirstName(base.file.bytes, ps, docId) == FirstName(base.file.bytes, ps[k..], docId)
      {
        assert ps[k..][1..] == ps[k + 1..];
        var ok := base.file.Seek(ps[k]);
        if !ok {
          return None;
        }
        var b := base.file.ReadItem(10);
        if b.None? {
          return None;
        }
        var header := DoctableElementHeader.FromDisk(b.value);
        if header.docId == docId {
          if header.fileNameBytes <= 0 {
            return Some(Some([]));
          }
          var name := ReadCharacters(base.file, header.fileNameBytes);
          return if name.None? then None else Some(Some(name.value));
        }
      }
      r := Some(None);
    }
  }
}
