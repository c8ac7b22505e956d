/**
 Ranked conjunctive queries over several index files (hw3/QueryProcessor.cc).
 None stands for a failed Verify333, which ends the program.
 */
module QueryProcessor {
  import opened Common
  import opened LayoutStructs
  import opened FileIndexReader
  import opened HashTableReader
  import opened TableReaders

  type Name = seq<Byte>

  type Counts = map<Name, int>

  datatype QueryResult = QueryResult(documentName: Name, rank: int)

  // The two table readers of one opened index file.
  datatype Index = Index(contents: seq<Byte>, dtOffset: int, dtBuckets: int, itOffset: int, itBuckets: int)

  // ----- opening -----

  // FileIndexReader followed by NewDocTableReader and NewIndexTableReader.
  function Opened(contents: seq<Byte>, validate: bool): Option<Index>
  {
    if !Accepted(contents, validate) then None
    else
      var itOffset := ToSigned(16 + HeaderOf(contents).doctableBytes, 4);
      match NumBucketsAt(contents, 16)
      case None => None
      case Some(dtBuckets) =>
        match NumBucketsAt(contents, itOffset)
        case None => None
        case Some(itBuckets) => Some(Index(contents, 16, dtBuckets, itOffset, itBuckets))
  }

  function AllOpened(files: seq<seq<Byte>>, validate: bool): Option<seq<Index>>
  {
    if files == [] then Some([])
    else
      match AllOpened(Init(files), validate)
      case None => None
      case Some(indices) =>
        match Opened(Last(files), validate)
        case None => None
        case Some(index) => Some(indices + [index])
  }

  // ----- what one index file answers, for any file -----

  // The file name that LookupDocID leaves: empty when the document is unknown.
  function NameAt(ix: Index, docId: Key): Option<Name>
  {
    match DocNameAt(ix.contents, ix.dtOffset, ix.dtBuckets, docId)
    case None => None
    case Some(None) => Some([])
    case Some(Some(name)) => Some(name)
  }

  // A DocID_t is unsigned and has 64 bits.
  function AsKey(docId: int): Key
  {
    docId % 0x1_0000_0000_0000_0000
  }

  // Counts by name for a list of postings; later postings win.
  function CountsByName(ix: Index, postings: seq<DocIDElementHeader>): Option<Counts>
  {
    if postings == [] then Some(map[])
    else
      match CountsByName(ix, Init(postings))
      case None => None
      case Some(m) =>
        match NameAt(ix, AsKey(Last(postings).docId))
        case None => None
        case Some(name) => Some(m[name := Last(postings).numPositions])
  }

  // Some(None) means that the index does not have the word.
  function WordCounts(ix: Index, word: seq<Byte>): Option<Option<Counts>>
  {
    match WordTableOffset(ix.contents, ix.itOffset, ix.itBuckets, word)
    case None => None
    case Some(None) => Some(None)
    case Some(Some(off)) =>
      match NumBucketsAt(ix.contents, off)
      case None => None
      case Some(n) =>
        match DocIDList(ix.contents, off, n)
        case None => None
        case Some(postings) =>
          match CountsByName(ix, postings)
          case None => None
          case Some(m) => Some(Some(m))
  }

  function Intersect(m1: Counts, m2: Counts): Counts
  {
    map name | name in m1 && name in m2 :: m1[name] + m2[name]
  }

  // The loop over the words from the i-th on.
  function RefineFrom(ix: Index, m: Counts, query: seq<seq<Byte>>, i: nat): Option<Counts>
    decreases |query| - i
  {
    if i >= |query| then Some(m)
    else
      match WordCounts(ix, query[i])
      case None => None
      case Some(None) => Some(map[])
      case Some(Some(more)) =>
        var both := Intersect(m, more);
        if both == map[] then Some(map[]) else RefineFrom(ix, both, query, i + 1)
  }

  function IndexAnswer(ix: Index, query: seq<seq<Byte>>): Option<Counts>
    requires query != []
  {
    match WordCounts(ix, query[0])
    case None => None
    case Some(None) => Some(map[])
    case Some(Some(m)) => RefineFrom(ix, m, query, 1)
  }

  // Every entry once.
  ghost function ResultsOf(m: Counts): multiset<QueryResult>
  {
    multiset(set name | name in m :: QueryResult(name, m[name]))
  }

  ghost function AllResults(indices: seq<Index>, query: seq<seq<Byte>>): Option<multiset<QueryResult>>
    requires query != []
  {
    if indices == [] then Some(multiset{})
    else
      match AllResults(Init(indices), query)
      case None => None
      case Some(results) =>
        match IndexAnswer(Last(indices), query)
        case None => None
        case Some(m) => Some(results + ResultsOf(m))
  }

  // ----- the methods -----

  ghost predicate RanksDescend(rs: seq<QueryResult>)
  {
    forall i, j :: 0 <= i < j < |rs| ==> rs[i].rank >= rs[j].rank
  }

  class QueryProcessor {
    const indices: seq<Index>

    constructor (indices: seq<Index>)
      ensures this.indices == indices
    {
      this.indices := indices;
    }

    // The source's constructor.
    static method Open(files: seq<seq<Byte>>, validate: bool) returns (r: Option<QueryProcessor>)
      ensures r.None? <==> AllOpened(files, validate).None?
      ensures r.Some? ==> fresh(r.value) && Some(r.value.indices) == AllOpened(files, validate)
    {
      var handles: seq<Index> := [];
      for i := 0 to |files|
        invariant AllOpened(files[..i], validate) == Some(handles)
      {
        AllOpenedFails(files, validate, i + 1);
        PrefixSnoc(files, i);
        var ix := OpenOne(files[i], validate);
        if ix.None? {
          return None;
        }
        handles := handles + [ix.value];
      }
      assert files[..|files|] == files;
      var qp := new QueryProcessor(handles);
      r := Some(qp);
    }

    static method OpenOne(contents: seq<Byte>, validate: bool) returns (r: Option<Index>)
      ensures r == Opened(contents, validate)
    {
      hide *;
      OpenedValue(contents, validate);
      var header := OpenIndex(contents, validate);
      if header.None? {
        return None;
      }
      var dtr := HashTableReader.Open(contents, 16);
      if dtr.None? {
        return None;
      }
      var itr := HashTableReader.Open(contents, ToSigned(16 + header.value.doctableBytes, 4));
      if itr.None? {
        return None;
      }
      r := Some(Index(contents, 16, dtr.value.numBuckets, itr.value.offset, itr.value.numBuckets));
    }

    method ProcessQuery(query: seq<seq<Byte>>) returns (r: Option<seq<QueryResult>>)
      requires query != []
      ensures r.None? <==> AllResults(indices, query).None?
      ensures r.Some? ==> Some(multiset(r.value)) == AllResults(indices, query) && RanksDescend(r.value)
    {
      var finalResult: seq<QueryResult> := [];
      for i := 0 to |indices|
        invariant AllResults(indices[..i], query) == Some(multiset(finalResult))
      {
        AllResultsFails(indices, query, i + 1);
        PrefixSnoc(indices, i);
        var m := QueryIndex(indices[i], query);
        if m.None? {
          return None;
        }
        var more := PushResults(m.value);
        finalResult := finalResult + more;
      }
      assert indices[..|indices|] == indices;
      finalResult := Sorted(finalResult);
      r := Some(finalResult);
    }
  }

  lemma OpenedValue(contents: seq<Byte>, validate: bool)
    ensures Accepted(contents, validate) ==> |contents| >= 16
    ensures !Accepted(contents, validate) ==> Opened(contents, validate) == None
    ensures Accepted(contents, validate) ==>
              var itOffset := ToSigned(16 + HeaderOf(contents).doctableBytes, 4);
              var dtBuckets, itBuckets := NumBucketsAt(contents, 16), NumBucketsAt(contents, itOffset);
              Opened(contents, validate) ==
              if dtBuckets.None? || itBuckets.None? then None
              else Some(Index(contents, 16, dtBuckets.value, itOffset, itBuckets.value))
  {
  }

  lemma {:induction false} AllOpenedFails(files: seq<seq<Byte>>, validate: bool, n: nat)
    requires n <= |files|
    ensures AllOpened(files[..n], validate).None? ==> AllOpened(files, validate).None?
    decreases |files| - n
  {
    if n < |files| {
      PrefixSnoc(files, n);
      AllOpenedFails(files, validate, n + 1);
    } else {
      assert files[..n] == files;
    }
  }

  lemma {:induction false} AllResultsFails(indices: seq<Index>, query: seq<seq<Byte>>, n: nat)
    requires n <= |indices| && query != []
    ensures AllResults(indices[..n], query).None? ==> AllResults(indices, query).None?
    decreases |indices| - n
  {
    if n < |indices| {
      PrefixSnoc(indices, n);
      AllResultsFails(indices, query, n + 1);
    } else {
      assert indices[..n] == indices;
    }
  }

  // The body of the loop over the indices, up to pushing the results.
  method QueryIndex(ix: Index, query: seq<seq<Byte>>) returns (r: Option<Counts>)
    requires query != []
    ensures r == IndexAnswer(ix, query)
  {
    hide WordCounts, Intersect;
    var found := CountWord(ix, query[0]);
    if found.None? {
      return None;
    }
    if found.value.None? {
      return Some(map[]);
    }
    var currIndexResult := found.value.value;
    var i := 1;
    while i < |query|
      invariant 1 <= i <= |query|
      invariant IndexAnswer(ix, query) == RefineFrom(ix, currIndexResult, query, i)
    {
      found := CountWord(ix, query[i]);
      if found.None? {
        return None;
      }
      if found.value.None? {
        return Some(map[]);
      }
      currIndexResult := IntersectMaps(currIndexResult, found.value.value);
      if currIndexResult == map[] {
        return Some(map[]);
      }
      i := i + 1;
    }
    r := Some(currIndexResult);
  }

  // One word: LookupWord, GetDocIDList, then the name of every document.
  method CountWord(ix: Index, word: seq<Byte>) returns (r: Option<Option<Counts>>)
    ensures r == WordCounts(ix, word)
  {
    hide *;
    WordCountsValue(ix, word);
    var itBase := new HashTableReader(ix.contents, ix.itOffset, ix.itBuckets);
    var itr := new IndexTableReader(itBase);
    var didtr := itr.LookupWord(word);
    if didtr.None? {
      return None;
    }
    if didtr.value.None? {
      return Some(None);
    }
    var wordPostings := didtr.value.value.GetDocIDList();
    if wordPostings.None? {
      return None;
    }
    var m := NameDocuments(ix, wordPostings.value);
    r := if m.None? then None else Some(Some(m.value));
  }

  lemma WordCountsValue(ix: Index, word: seq<Byte>)
    ensures var found := WordTableOffset(ix.contents, ix.itOffset, ix.itBuckets, word);
            && (found.None? ==> WordCounts(ix, word) == None)
            && (found == Some(None) ==> WordCounts(ix, word) == Some(None))
            && (found.Some? && found.value.Some? ==>
                  var n := NumBucketsAt(ix.contents, found.value.value);
                  && (n.None? ==> WordCounts(ix, word) == None)
                  && (n.Some? ==>
                        var postings := DocIDList(ix.contents, found.value.value, n.value);
                        && (postings.None? ==> WordCounts(ix, word) == None)
                        && (postings.Some? ==>
                              var m := CountsByName(ix, postings.value);
                              WordCounts(ix, word) == if m.None? then None else Some(Some(m.value)))))
  {
  }

  // The loop over the postings of a word.
  method NameDocuments(ix: Index, postings: seq<DocIDElementHeader>) returns (r: Option<Counts>)
    ensures r == CountsByName(ix, postings)
  {
    hide DocNameAt;
    var dtBase := new HashTableReader(ix.contents, ix.dtOffset, ix.dtBuckets);
    var dtr := new DocTableReader(dtBase);
    var m: Counts := map[];
    for i := 0 to |postings|
      invariant dtr.base == dtBase && dtBase.file.bytes == ix.contents && fresh(dtBase.file)
      invariant CountsByName(ix, postings[..i]) == Some(m)
    {
      CountsByNameFails(ix, postings, i + 1);
      PrefixSnoc(postings, i);
      var found := dtr.LookupDocID(AsKey(postings[i].docId));
      if found.None? {
        return None;
      }
      var fileName := if found.value.None? then [] else found.value.value;
      m := m[fileName := postings[i].numPositions];
    }
    assert postings[..|postings|] == postings;
    r := Some(m);
  }

  lemma {:induction false} CountsByNameFails(ix: Index, postings: seq<DocIDElementHeader>, n: nat)
    requires n <= |postings|
    ensures CountsByName(ix, postings[..n]).None? ==> CountsByName(ix, postings).None?
    decreases |postings| - n
  {
    hide NameAt;
    if n < |postings| {
      PrefixSnoc(postings, n);
      CountsByNameFails(ix, postings, n + 1);
    } else {
      assert postings[..n] == postings;
    }
  }

  method IntersectMaps(map1: Counts, map2: Counts) returns (newMap: Counts)
    ensures newMap == Intersect(map1, map2)
  {
    newMap := map[];
    var rest := map1.Keys;
    while rest != {}
      invariant rest <= map1.Keys
      invariant newMap == map name | name in map1.Keys - rest && name in map2 :: map1[name] + map2[name]
    {
      var s :| s in rest;
      rest := rest - {s};
      if s in map2 {
        newMap := newMap[s := map1[s] + map2[s]];
      }
    }
  }

  // Push every entry of a map; std::map has its own order, which does not matter.
  method PushResults(m: Counts) returns (rs: seq<QueryResult>)
    ensures multiset(rs) == ResultsOf(m)
  {
    rs := [];
    var rest := m.Keys;
    ghost var done: set<QueryResult> := {};
    while rest != {}
      invariant rest <= m.Keys
      invariant done == set name | name in m.Keys - rest :: QueryResult(name, m[name])
      invariant multiset(rs) == multiset(done)
    {
      var name :| name in rest;
      rest := rest - {name};
      assert QueryResult(name, m[name]) !in done;
      done := done + {QueryResult(name, m[name])};
      rs := rs + [QueryResult(name, m[name])];
    }
    assert done == set name | name in m :: QueryResult(name, m[name]);
  }

  // std::sort by operator<, which orders by descending rank only.
  method Sorted(rs: seq<QueryResult>) returns (sorted: seq<QueryResult>)
    ensures multiset(sorted) == multiset(rs) && RanksDescend(sorted)
  {
    hide *;
    sorted := [];
    NoneDescend();
    for i := 0 to |rs|
      invariant multiset(sorted) == multiset(rs[..i]) && RanksDescend(sorted)
    {
      var k := PlaceOf(sorted, rs[i]);
      InsertedInOrder(sorted, k, rs[i]);
      assert rs[..i + 1] == rs[..i] + [rs[i]];
      sorted := InsertedAt(sorted, k, rs[i]);
    }
    assert rs[..|rs|] == rs;
  }

  lemma NoneDescend()
    ensures RanksDescend([])
  {
  }

  method PlaceOf(rs: seq<QueryResult>, x: QueryResult) returns (k: nat)
    ensures k <= |rs| && (k > 0 ==> rs[k - 1].rank > x.rank) && (k < |rs| ==> rs[k].rank <= x.rank)
  {
    k := 0;
    while k < |rs| && rs[k].rank > x.rank
      invariant 0 <= k <= |rs| && (k > 0 ==> rs[k - 1].rank > x.rank)
    {
      k := k + 1;
    }
  }

  function InsertedAt(rs: seq<QueryResult>, k: nat, x: QueryResult): (r: seq<QueryResult>)
    requires k <= |rs|
    ensures multiset(r) == multiset(rs) + multiset{x}
  {
    assert rs == rs[..k] + rs[k..];
    rs[..k] + [x] + rs[k..]
  }

  lemma InsertedInOrder(rs: seq<QueryResult>, k: nat, x: QueryResult)
    requires RanksDescend(rs) && k <= |rs|
    requires (k > 0 ==> rs[k - 1].rank > x.rank) && (k < |rs| ==> rs[k].rank <= x.rank)
    ensures RanksDescend(InsertedAt(rs, k, x))
  {
    hide RanksDescend;
    var r := InsertedAt(rs, k, x);
    forall i, j | 0 <= i < j < |r|
      ensures r[i].rank >= r[j].rank
    {
      var a, b := if i < k then i else i - 1, if j < k then j else j - 1;
      if i != k && j != k {
        Descends(rs, a, b);
      } else if j == k {
        Descends(rs, i, k - 1);
      } else {
        Descends(rs, k, b);
      }
    }
    DescendsAll(r);
  }

  lemma Descends(rs: seq<QueryResult>, i: int, j: int)
    requires RanksDescend(rs) && 0 <= i <= j < |rs|
    ensures rs[i].rank >= rs[j].rank
  {
  }

  lemma DescendsAll(rs: seq<QueryResult>)
    requires forall i, j :: 0 <= i < j < |rs| ==> rs[i].rank >= rs[j].rank
    ensures RanksDescend(rs)
  {
  }
}
