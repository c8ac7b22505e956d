/**
 Adding one file to the index (HandleFile of hw2/CrawlFileTree.c): parse it,
 register its name, and drain its table of words into the index.
 */
module CrawlFileTree {
  import opened Common
  import opened DiskLayout
  import opened DocTable
  import opened FileParser
  import opened Fnv
  import opened HashTable
  import opened LayoutStructs
  import opened LossyNames
  import opened MemIndex
  import opened RoundTrip
  import QueryAgreement
  import T = Tables

  // ----- draining a table of words -----

  // The index after the first k pairs have been posted for document d.
  ghost predicate Drained(t0: Table<Value>, t: Table<Value>, pairs: seq<KV<WordPositions>>, k: int, d: Key)
    requires |t0| > 0 && 0 <= k <= |pairs|
  {
    && IsMemIndex(t) && |t| > 0
    && (forall j :: 0 <= j < k ==>
       PositionsAt(t, pairs[j].value.word, d) == Some(AsPositions(pairs[j].value.positions)))
    && (forall w, e: Key :: (e != d || !Among(w, pairs, k)) ==> PositionsAt(t, w, e) == PositionsAt(t0, w, e))
    && (forall key: Key :: !KeyAmong(key, pairs, k) ==> T.Find(t, key) == T.Find(t0, key))
    && (forall j :: 0 <= j < k ==> FiledUnder(t, pairs[j].value.word))
  }

  ghost predicate Among(w: Text, pairs: seq<KV<WordPositions>>, k: int)
    requires 0 <= k <= |pairs|
  {
    exists j :: 0 <= j < k && pairs[j].value.word == w
  }

  ghost predicate KeyAmong(key: Key, pairs: seq<KV<WordPositions>>, k: int)
    requires 0 <= k <= |pairs|
  {
    exists j :: 0 <= j < k && pairs[j].key == key
  }

  // DocPositionOffset_t has 32 bits.
  function AsPositions(ps: seq<int>): (r: seq<Position>)
    ensures |r| == |ps|
    ensures forall i :: 0 <= i < |ps| ==> r[i] == ps[i] % 0x1_0000_0000
  {
    if ps == [] then [] else AsPositions(Init(ps)) + [Last(ps) % 0x1_0000_0000]
  }

  // What the pairs of a parsed file are, and what posting them for d takes.
  ghost predicate Postable(t0: Table<Value>, pairs: seq<KV<WordPositions>>, d: Key)
    requires |t0| > 0
  {
    && T.DistinctKeys(pairs)
    && (forall j :: 0 <= j < |pairs| ==> pairs[j].key == FnvHash(pairs[j].value.word))
    && (forall j :: 0 <= j < |pairs| ==> CanAdd(t0, pairs[j].value.word, d))
  }

  lemma NextCanAdd(t0: Table<Value>, t: Table<Value>, pairs: seq<KV<WordPositions>>, k: int, d: Key)
    requires |t0| > 0 && 0 <= k < |pairs| && Postable(t0, pairs, d) && Drained(t0, t, pairs, k, d)
    ensures IsMemIndex(t) && |t| > 0 && CanAdd(t, pairs[k].value.word, d)
  {
    hide T.Find, FnvHash;
    var key := pairs[k].key;
    assert !KeyAmong(key, pairs, k);
    assert T.Find(t, key) == T.Find(t0, key);
  }

  lemma DrainedNext(t0: Table<Value>, t: Table<Value>, t': Table<Value>, pairs: seq<KV<WordPositions>>, k: int, d: Key)
    requires |t0| > 0 && 0 <= k < |pairs| && Postable(t0, pairs, d) && Drained(t0, t, pairs, k, d)
    requires IsMemIndex(t') && |t'| > 0 && FiledUnder(t', pairs[k].value.word)
    requires var word, ps := pairs[k].value.word, AsPositions(pairs[k].value.positions);
             && (forall w, e: Key ::
                   PositionsAt(t', w, e) == if w == word && e == d then Some(ps) else PositionsAt(t, w, e))
             && (forall key :: key != FnvHash(word) ==> T.Find(t', key) == T.Find(t, key))
    ensures Drained(t0, t', pairs, k + 1, d)
  {
    hide T.Find, FnvHash, PositionsAt, IsMemIndex, AsPositions;
    var word := pairs[k].value.word;
    forall j | 0 <= j < k
      ensures pairs[j].value.word != word && FnvHash(pairs[j].value.word) != FnvHash(word)
    {
      assert pairs[j].key != pairs[k].key;
    }
    forall w, e: Key | e != d || !Among(w, pairs, k + 1)
      ensures PositionsAt(t', w, e) == PositionsAt(t0, w, e)
    {
      AmongNext(w, pairs, k);
    }
    forall key: Key | !KeyAmong(key, pairs, k + 1)
      ensures T.Find(t', key) == T.Find(t0, key)
    {
      KeyAmongNext(key, pairs, k);
    }
  }

  lemma AmongNext(w: Text, pairs: seq<KV<WordPositions>>, k: int)
    requires 0 <= k < |pairs|
    ensures Among(w, pairs, k + 1) <==> Among(w, pairs, k) || pairs[k].value.word == w
  {
  }

  lemma KeyAmongNext(key: Key, pairs: seq<KV<WordPositions>>, k: int)
    requires 0 <= k < |pairs|
    ensures KeyAmong(key, pairs, k + 1) <==> KeyAmong(key, pairs, k) || pairs[k].key == key
  {
  }

  // The index after all pairs have been posted, one after the other.
  function PostAll(t: Table<Value>, pairs: seq<KV<WordPositions>>, d: Key): (r: Table<Value>)
    requires |t| > 0
    ensures |r| > 0
  {
    if pairs == [] then t
    else Added(PostAll(t, Init(pairs), d), Last(pairs).value.word, d, AsPositions(Last(pairs).value.positions))
  }

  lemma PostAllNext(t: Table<Value>, pairs: seq<KV<WordPositions>>, k: int, d: Key)
    requires |t| > 0 && 0 <= k < |pairs|
    ensures PostAll(t, pairs[..k + 1], d)
         == Added(PostAll(t, pairs[..k], d), pairs[k].value.word, d, AsPositions(pairs[k].value.positions))
  {
    hide Added, AsPositions;
    PrefixSnoc(pairs, k);
  }

  lemma PostAllEnds(t: Table<Value>, pairs: seq<KV<WordPositions>>, d: Key)
    requires |t| > 0
    ensures PostAll(t, pairs[..0], d) == t && pairs[..|pairs|] == pairs
  {
  }

  lemma {:induction false} PostAllDrained(t: Table<Value>, pairs: seq<KV<WordPositions>>, k: int, d: Key)
    requires IsMemIndex(t) && |t| > 0 && T.Size(t) <= 3 * |t| && 0 <= k <= |pairs| && Postable(t, pairs, d)
    ensures var t' := PostAll(t, pairs[..k], d); Drained(t, t', pairs, k, d) && T.Size(t') <= 3 * |t'|
  {
    hide *;
    PostAllEnds(t, pairs, d);
    if k == 0 {
      NothingDrained(t, pairs, d);
    } else {
      var before, kv := PostAll(t, pairs[..k - 1], d), pairs[k - 1];
      PostAllDrained(t, pairs, k - 1, d);
      PostAllNext(t, pairs, k - 1, d);
      NextCanAdd(t, before, pairs, k - 1, d);
      AddedKeeps(before, kv.value.word, d, AsPositions(kv.value.positions));
      DrainedNext(t, before, PostAll(t, pairs[..k], d), pairs, k - 1, d);
    }
  }

  // The loop of HandleFile: HTIterator_Remove, then MemIndex_AddPostingList.
  method Drain(tab: HashTable<WordPositions>, index: MemIndex, docId: Key)
    requires tab.Valid() && index.Valid() && tab.Repr !! index.Repr && IsMemIndex(index.table)
    requires Postable(index.table, T.AllPairs(tab.table), docId)
    modifies tab.Repr, index.Repr
    ensures tab.Valid() && T.AllPairs(tab.table) == []
    ensures index.Valid() && fresh(index.Repr - old(index.Repr)) && |old(index.table)| > 0
    ensures index.table == PostAll(old(index.table), T.AllPairs(old(tab.table)), docId)
    ensures var pairs := T.AllPairs(old(tab.table)); Drained(old(index.table), index.table, pairs, |pairs|, docId)
  {
    hide *;
    Pairs(index.table, 0);
    ghost var t0, pairs := index.table, T.AllPairs(tab.table);
    ghost var k := 0;
    PostAllEnds(t0, pairs, docId);
    T.SizeValue(tab.table);
    var it := new HTIterator(tab);
    var valid := it.IsValid();
    while valid
      invariant it.Valid() && it.ht == tab && it.pos == 0 && fresh(it) && (it.bucketIt != null ==> fresh(it.bucketIt))
      invariant it !in index.Repr && it.bucketIt !in index.Repr
      invariant index.Valid() && fresh(index.Repr - old(index.Repr)) && tab.Repr == old(tab.Repr)
                && tab.Repr !! index.Repr
      invariant 0 <= k <= |pairs| && T.AllPairs(tab.table) == pairs[k..]
      invariant valid <==> k < |pairs|
      invariant index.table == PostAll(t0, pairs[..k], docId)
      decreases |pairs| - k
    {
      T.SizeValue(tab.table);
      var kv := it.Remove();
      PostAllDrained(t0, pairs, k, docId);
      NextCanAdd(t0, index.table, pairs, k, docId);
      PostAllNext(t0, pairs, k, docId);
      AddPostingList(index, kv.value.value.word, docId, AsPositions(kv.value.value.positions));
      k := k + 1;
      T.SizeValue(tab.table);
      valid := it.IsValid();
    }
    T.SizeValue(tab.table);
    PostAllDrained(t0, pairs, |pairs|, docId);
  }

  lemma NothingDrained(t0: Table<Value>, pairs: seq<KV<WordPositions>>, d: Key)
    requires IsMemIndex(t0) && |t0| > 0
    ensures Drained(t0, t0, pairs, 0, d)
  {
    hide T.Find, FnvHash, IsMemIndex, AsPositions;
  }

  // ----- one file -----

  // The id that DocTable_Add will return.
  function IdFor(ids: Table<DocIdCell>, maxId: Key, filePath: Name): Key
    requires |ids| > 0
  {
    if IdOf(ids, filePath) != INVALID_DOCID then IdOf(ids, filePath) else maxId
  }

  // The Verify333 tests of MemIndex_AddPostingList pass for every word of the file.
  ghost predicate CanPost(t: Table<Value>, s: Text, d: Key)
    requires |t| > 0
  {
    forall w :: IsWord(s, w) ==> CanAdd(t, w, d)
  }

  // The index after the words of the text have been posted for document d.
  ghost predicate PostedFor(t0: Table<Value>, t: Table<Value>, s: Text, d: Key)
    requires |t0| > 0 && |t| > 0
  {
    && (forall w, e: Key :: PositionsAt(t, w, e)
                         == if e == d && IsWord(s, w) then Some(AsPositions(Starts(s, w, |s|)))
                               else PositionsAt(t0, w, e))
    && (forall w :: IsWord(s, w) ==> FiledUnder(t, w))
    && (forall key: Key :: (forall w :: IsWord(s, w) ==> FnvHash(w) != key) ==> T.Find(t, key) == T.Find(t0, key))
  }

  // The texts that have been indexed so far, by document id.
  type Texts = map<Key, Text>

  // The index records exactly the words of the texts, and every text has a name.
  ghost predicate Describes(names: Table<Value>, ids: Table<DocIdCell>, maxId: Key, t: Table<Value>, texts: Texts)
  {
    && Paired(names, ids, maxId) && IsMemIndex(t) && |t| > 0
    && (forall d :: d in texts ==> 1 <= d < maxId)
    && (forall w, d: Key :: PositionsAt(t, w, d)
                         == if d in texts && IsWord(texts[d], w) then Some(AsPositions(Starts(texts[d], w, |texts[d]|)))
                               else None)
    && (forall key: Key :: OnlyWords(T.Find(t, key)))
  }

  // Whatever is stored under a key is a word with at least one document.
  ghost predicate OnlyWords(r: Option<KV<Value>>)
  {
    r.Some? && r.value.value.Postings? ==> r.value.value.word != [] && HasDocument(r.value.value.table)
  }

  ghost predicate HasDocument(table: Table<Value>)
  {
    |table| > 0 && exists d: Key :: T.Find(table, d).Some?
  }

  // Everything a crawl has built so far, as values.
  datatype Collection = Collection(names: Table<Value>, ids: Table<DocIdCell>, maxId: Key, index: Table<Value>)
  {
    ghost predicate Sized() {
      |names| > 0 && |ids| > 0 && |index| > 0
    }

    // No table has more than 3 pairs per bucket.
    ghost predicate Roomy() {
      T.Size(names) <= 3 * |names| && T.Size(ids) <= 3 * |ids| && T.Size(index) <= 3 * |index|
    }
  }

  ghost function Collected(docTable: DocTable, index: MemIndex): Collection
    reads docTable, docTable.idToName, docTable.nameToId, index
  {
    Collection(docTable.idToName.table, docTable.nameToId.table, docTable.maxId, index.table)
  }

  // After DocTable_Add.  The ids are unsigned and have 64 bits.
  function WithName(c: Collection, path: Name): (r: Collection)
    requires c.Sized()
    ensures r.Sized() && r.index == c.index
  {
    if IdOf(c.ids, path) != INVALID_DOCID then c
    else
      c.(names := T.InsertInto(T.Resized(c.names), KV(c.maxId, DocName(path))),
         ids := T.InsertInto(T.Resized(c.ids), KV(FnvHash(path), DocIdCell(c.maxId))),
         maxId := (c.maxId + 1) % 0x1_0000_0000_0000_0000)
  }

  // After HandleFile, as a function of what was there and the text of the file alone.
  ghost function AfterFile(c: Collection, path: Name, s: Text): (r: Collection)
    requires c.Sized()
    ensures r.Sized()
  {
    if HasWords(s) then
      WithName(c, path).(index := PostAll(c.index, T.AllPairs(WordTable(s, |s|)), IdFor(c.ids, c.maxId, path)))
    else c
  }

  lemma AfterFileValue(c: Collection, path: Name, s: Text)
    requires c.Sized()
    ensures !HasWords(s) ==> AfterFile(c, path, s) == c
    ensures HasWords(s) ==>
              AfterFile(c, path, s)
              == WithName(c, path).(index := PostAll(c.index, T.AllPairs(WordTable(s, |s|)),
                  IdFor(c.ids, c.maxId, path)))
  {
    hide WithName, PostAll, T.AllPairs, WordTable, IdFor, HasWords;
  }

  lemma WithNameValue(c: Collection, path: Name)
    requires c.Sized()
    ensures IdOf(c.ids, path) != INVALID_DOCID ==> WithName(c, path) == c
    ensures IdOf(c.ids, path) == INVALID_DOCID && c.maxId < MAX_DOCID ==>
              WithName(c, path)
              == Collection(T.InsertInto(T.Resized(c.names), KV(c.maxId, DocName(path))),
                            T.InsertInto(T.Resized(c.ids), KV(FnvHash(path), DocIdCell(c.maxId))),
                            c.maxId + 1, c.index)
  {
    hide T.InsertInto, T.Resized, FnvHash, IdOf;
  }

  // The checks of HandleFile that end the program if they fail: no two words of the file
  // have the same hash, and posting the words finds no other word and no posting yet.
  ghost predicate Passes(c: Collection, path: Name, s: Text)
    requires c.Sized()
  {
    HashesApart(s) && (HasWords(s) ==> CanPost(c.index, s, IdFor(c.ids, c.maxId, path)))
  }

  method HandleFile(filePath: Name, fileContents: array?<Byte>, docTable: DocTable, index: MemIndex)
    requires docTable.Valid() && docTable.maxId < MAX_DOCID && index.Valid() && IsMemIndex(index.table)
             && Collected(docTable, index).Sized()
    requires docTable.idToName.Repr !! index.Repr && docTable.nameToId.Repr !! index.Repr && docTable !in index.Repr
    requires fileContents != null ==>
               && var s := CString(fileContents[..]);
               && |s| < fileContents.Length && |s| <= MAX_INT32 && Passes(Collected(docTable, index), filePath, s)
    requires fileContents !in docTable.idToName.Repr && fileContents !in docTable.nameToId.Repr
             && fileContents !in index.Repr
    modifies docTable, docTable.idToName.Repr, docTable.nameToId.Repr, index.Repr, fileContents
    ensures docTable.Valid() && index.Valid() && IsMemIndex(index.table)
    ensures fresh(docTable.idToName.Repr - old(docTable.idToName.Repr))
            && fresh(docTable.nameToId.Repr - old(docTable.nameToId.Repr))
    ensures fresh(index.Repr - old(index.Repr))
    ensures docTable.idToName.Repr !! index.Repr && docTable.nameToId.Repr !! index.Repr && docTable !in index.Repr
    ensures Collected(docTable, index)
         == if fileContents == null then old(Collected(docTable, index))
            else AfterFile(old(Collected(docTable, index)), filePath, CString(old(fileContents[..])))
    // Every word of the file is posted with all its positions under the id of the file.
    ensures |old(index.table)| > 0 && |index.table| > 0 && |docTable.nameToId.table| > 0
    ensures fileContents != null && HasWords(CString(old(fileContents[..]))) ==>
              PostedFor(old(index.table), index.table, CString(old(fileContents[..])),
                        IdOf(docTable.nameToId.table, filePath))
  {
    hide *;
    ghost var c := Collected(docTable, index);
    CollectedParts(docTable, index);
    if fileContents != null {
      PassesParts(c, filePath, CString(fileContents[..]));
      AfterFileValue(c, filePath, CString(fileContents[..]));
      WithNameValue(c, filePath);
    }
    var tab := ParseIntoWordPositionsTable(fileContents);
    if tab.None? {
      CollectedParts(docTable, index);
      return;
    }
    ghost var s := CString(old(fileContents[..]));
    IdForValue(docTable.nameToId.table, docTable.maxId, filePath);
    var docId := docTable.Add(filePath);
    FilePostable(index.table, tab.value.table, s, docId);
    ghost var words := tab.value.table;
    Drain(tab.value, index, docId);
    FilePosted(old(index.table), index.table, words, s, docId);
    CollectedParts(docTable, index);
  }

  lemma CollectedParts(docTable: DocTable, index: MemIndex)
    ensures Collected(docTable, index)
         == Collection(docTable.idToName.table, docTable.nameToId.table, docTable.maxId, index.table)
    ensures Collected(docTable, index).Sized() <==>
            |docTable.idToName.table| > 0 && |docTable.nameToId.table| > 0 && |index.table| > 0
  {
  }

  lemma PassesParts(c: Collection, path: Name, s: Text)
    requires c.Sized()
    ensures Passes(c, path, s) <==>
            HashesApart(s) && (HasWords(s) ==> CanPost(c.index, s, IdFor(c.ids, c.maxId, path)))
  {
  }

  // A file whose name is new adds its text under a new id.
  lemma AfterFileDescribes(c: Collection, path: Name, s: Text, texts: Texts)
    requires c.Sized() && c.Roomy() && HasWords(s) && Passes(c, path, s)
    requires IdOf(c.ids, path) == INVALID_DOCID && c.maxId < MAX_DOCID
    requires Describes(c.names, c.ids, c.maxId, c.index, texts)
    ensures var r := AfterFile(c, path, s);
            && r.Roomy() && r.maxId == c.maxId + 1 && NameOfId(r.names, c.maxId) == Some(path)
            && (forall e: Key :: e != c.maxId ==> NameOfId(r.names, e) == NameOfId(c.names, e))
            && Describes(r.names, r.ids, r.maxId, r.index, texts[c.maxId := s])
  {
    hide *;
    var r, words := AfterFile(c, path, s), WordTable(s, |s|);
    RoomyParts(c);
    AfterFileValue(c, path, s);
    WithNameValue(c, path);
    PassesParts(c, path, s);
    IdForValue(c.ids, c.maxId, path);
    DescribedParts(c.names, c.ids, c.maxId, c.index, texts);
    RoomyParts(r);
    UnknownHash(c.ids, path, c.names, c.maxId);
    AddedPaired(c.names, c.ids, c.maxId, path);
    AddedRoom(c.names, KV(c.maxId, DocName(path)));
    AddedRoom(c.ids, KV(FnvHash(path), DocIdCell(c.maxId)));
    WordTableIndexed(s, |s|);
    FilePostable(c.index, words, s, c.maxId);
    PostAllEnds(c.index, T.AllPairs(words), c.maxId);
    PostAllDrained(c.index, T.AllPairs(words), |T.AllPairs(words)|, c.maxId);
    FilePosted(c.index, r.index, words, s, c.maxId);
    DescribesOneMore(c.names, c.ids, c.maxId, c.index, texts, s, r.names, r.ids, r.index);
  }

  lemma RoomyParts(c: Collection)
    requires c.Sized()
    ensures |c.names| > 0 && |c.ids| > 0 && |c.index| > 0
    ensures c.Roomy() <==>
            T.Size(c.names) <= 3 * |c.names| && T.Size(c.ids) <= 3 * |c.ids| && T.Size(c.index) <= 3 * |c.index|
  {
  }

  lemma AddedRoom<V>(t: Table<V>, kv: KV<V>)
    requires T.WellFormed(t) && T.Size(t) <= 3 * |t|
    ensures var t' := T.InsertInto(T.Resized(t), kv); T.Size(t') <= 3 * |t'|
  {
    hide T.InsertInto, T.Resized, T.Size;
    T.ResizedSame(t);
    T.InsertSize(T.Resized(t), kv);
  }

  lemma UnknownHash(ids: Table<DocIdCell>, path: Name, names: Table<Value>, maxId: Key)
    requires Paired(names, ids, maxId)
    ensures |ids| > 0 && T.WellFormed(names) && T.WellFormed(ids)
    ensures IdOf(ids, path) == INVALID_DOCID ==> T.Find(ids, FnvHash(path)).None?
  {
    hide T.Find, FnvHash, LeadsBack, LeadsBackId;
    KnownIsValid(names, ids, maxId, path);
  }

  lemma DescribedParts(names: Table<Value>, ids: Table<DocIdCell>, maxId: Key, t: Table<Value>, texts: Texts)
    requires Describes(names, ids, maxId, t, texts)
    ensures Paired(names, ids, maxId) && IsMemIndex(t) && |t| > 0
  {
    hide Paired, IsMemIndex;
  }

  lemma IdForValue(ids: Table<DocIdCell>, maxId: Key, filePath: Name)
    requires |ids| > 0
    ensures IdFor(ids, maxId, filePath) == if IdOf(ids, filePath) != INVALID_DOCID then IdOf(ids, filePath) else maxId
  {
  }

  lemma FilePostable(t0: Table<Value>, tab: Table<WordPositions>, s: Text, d: Key)
    requires |t0| > 0 && Indexed(tab, s, |s|) && CanPost(t0, s, d)
    ensures Postable(t0, T.AllPairs(tab), d)
  {
    hide T.Find, FnvHash, Starts, T.AllPairs, CanAdd;
    var pairs := T.AllPairs(tab);
    T.AllPairsDistinct(tab, |tab|);
    forall j | 0 <= j < |pairs|
      ensures pairs[j].key == FnvHash(pairs[j].value.word) && CanAdd(t0, pairs[j].value.word, d)
    {
      T.AllPairsAreFound(tab, pairs[j]);
      assert Lists(pairs[j], s, |s|);
      assert IsWord(s, pairs[j].value.word);
    }
  }

  // The pairs of the table are the words of the text.
  lemma FileWords(tab: Table<WordPositions>, s: Text)
    requires Indexed(tab, s, |s|) && HashesApart(s)
    ensures var pairs := T.AllPairs(tab);
            && (forall j :: 0 <= j < |pairs| ==>
                  && pairs[j].key == FnvHash(pairs[j].value.word) && IsWord(s, pairs[j].value.word)
                  && pairs[j].value.positions == Starts(s, pairs[j].value.word, |s|))
            && (forall w :: IsWord(s, w) <==> Among(w, pairs, |pairs|))
  {
    hide T.Find, FnvHash, Starts, T.AllPairs;
    var pairs := T.AllPairs(tab);
    forall j | 0 <= j < |pairs|
      ensures Lists(pairs[j], s, |s|) && IsWord(s, pairs[j].value.word)
    {
      T.AllPairsAreFound(tab, pairs[j]);
    }
    forall w | IsWord(s, w)
      ensures Among(w, pairs, |pairs|)
    {
      var kv := T.Find(tab, FnvHash(w)).value;
      T.FoundKey(tab, FnvHash(w));
      T.AllPairsAreFound(tab, kv);
      var j :| 0 <= j < |pairs| && pairs[j] == kv;
      assert Lists(kv, s, |s|) && IsWord(s, kv.value.word);
      assert pairs[j].value.word == w;
    }
  }

  lemma FilePosted(t0: Table<Value>, t: Table<Value>, tab: Table<WordPositions>, s: Text, d: Key)
    requires |t0| > 0 && Indexed(tab, s, |s|) && HashesApart(s)
    requires var pairs := T.AllPairs(tab); Drained(t0, t, pairs, |pairs|, d)
    ensures IsMemIndex(t) && |t| > 0 && PostedFor(t0, t, s, d)
  {
    hide T.Find, FnvHash, Starts, T.AllPairs, PositionsAt, IsWord, FiledUnder, AsPositions, IsMemIndex, Indexed;
    var pairs := T.AllPairs(tab);
    FileWords(tab, s);
    forall w, e: Key
      ensures PositionsAt(t, w, e)
           == if e == d && IsWord(s, w) then Some(AsPositions(Starts(s, w, |s|))) else PositionsAt(t0, w, e)
    {
      if IsWord(s, w) {
        var j :| 0 <= j < |pairs| && pairs[j].value.word == w;
      }
    }
    forall w | IsWord(s, w)
      ensures FiledUnder(t, w)
    {
      var j :| 0 <= j < |pairs| && pairs[j].value.word == w;
    }
    forall key: Key | forall w :: IsWord(s, w) ==> FnvHash(w) != key
      ensures T.Find(t, key) == T.Find(t0, key)
    {
      assert forall j :: 0 <= j < |pairs| ==> pairs[j].key != key;
    }
  }

  // ----- many files -----

  lemma WordsNotEmpty(s: Text, w: Text)
    requires IsWord(s, w)
    ensures w != []
  {
    StartsExact(s, w, |s|);
    var i := Starts(s, w, |s|)[0];
    assert i in Starts(s, w, |s|);
    var j :| j < |s| && IsToken(s, i, j) && Lower(s[i..j]) == w;
  }

  // An index starts with no texts.
  lemma NothingDescribed(names: Table<Value>, ids: Table<DocIdCell>, maxId: Key, t: Table<Value>)
    requires Paired(names, ids, maxId) && IsMemIndex(t) && |t| > 0 && forall key :: T.Find(t, key) == None
    ensures Describes(names, ids, maxId, t, map[])
  {
    hide T.Find, FnvHash, IsMemIndex, Paired;
  }

  // A new document is not in the index yet, so only hashes can stand in the way.
  lemma NewDocumentPostable(names: Table<Value>, ids: Table<DocIdCell>, maxId: Key, t: Table<Value>,
                            texts: Texts, s: Text)
    requires Describes(names, ids, maxId, t, texts)
    requires forall w :: IsWord(s, w) ==> QueryAgreement.NoCollision(t, w)
    ensures |t| > 0 && CanPost(t, s, maxId)
  {
    hide T.Find, FnvHash, Starts;
    forall w | IsWord(s, w)
      ensures CanAdd(t, w, maxId)
    {
      assert PositionsAt(t, w, maxId) == None;
      NotPosted(t, w, maxId);
    }
  }

  lemma NotPosted(t: Table<Value>, w: Text, d: Key)
    requires IsMemIndex(t) && |t| > 0 && QueryAgreement.NoCollision(t, w) && PositionsAt(t, w, d) == None
    ensures CanAdd(t, w, d)
  {
    hide T.Find, FnvHash;
    Pairs(t, FnvHash(w));
    var r := T.Find(t, FnvHash(w));
    if r.Some? {
      Documents(r.value.value.table);
    }
  }

  // HandleFile on a new file adds its text to the description.
  lemma DescribesOneMore(names: Table<Value>, ids: Table<DocIdCell>, maxId: Key, t: Table<Value>, texts: Texts, s: Text,
                         names': Table<Value>, ids': Table<DocIdCell>, t': Table<Value>)
    requires Describes(names, ids, maxId, t, texts) && |t| > 0 && maxId < MAX_DOCID
    requires Paired(names', ids', maxId + 1) && IsMemIndex(t') && |t'| > 0 && PostedFor(t, t', s, maxId)
    ensures Describes(names', ids', maxId + 1, t', texts[maxId := s])
  {
    hide T.Find, FnvHash, Starts, PositionsAt, AsPositions, IsWord, IsMemIndex, Paired, FiledUnder;
    PairedParts(names, ids, maxId);
    forall key: Key
      ensures OnlyWords(T.Find(t', key))
    {
      assert OnlyWords(T.Find(t, key));
      if w :| IsWord(s, w) && FnvHash(w) == key {
        WordsNotEmpty(s, w);
        FiledWord(t', w);
        assert PositionsAt(t', w, maxId).Some?;
        PostedHasDocument(t', w, maxId);
      } else {
        assert T.Find(t', key) == T.Find(t, key);
      }
    }
    var texts' := texts[maxId := s];
    forall w, d: Key
      ensures PositionsAt(t', w, d)
           == if d in texts' && IsWord(texts'[d], w) then Some(AsPositions(Starts(texts'[d], w, |texts'[d]|))) else None
    {
      assert PositionsAt(t', w, d)
          == if d == maxId && IsWord(s, w) then Some(AsPositions(Starts(s, w, |s|))) else PositionsAt(t, w, d);
    }
  }

  lemma DescribedIsMemIndex(names: Table<Value>, ids: Table<DocIdCell>, maxId: Key, t: Table<Value>, texts: Texts)
    requires Describes(names, ids, maxId, t, texts)
    ensures IsMemIndex(t) && |t| > 0
  {
    hide IsMemIndex;
  }

  lemma PostedHasDocument(t: Table<Value>, w: Text, d: Key)
    requires |t| > 0 && PositionsAt(t, w, d).Some?
    ensures var r := T.Find(t, FnvHash(w)); r.Some? && r.value.value.Postings? && HasDocument(r.value.value.table)
  {
    hide T.Find, FnvHash;
  }

  lemma FiledWord(t: Table<Value>, w: Text)
    requires |t| > 0 && FiledUnder(t, w)
    ensures var r := T.Find(t, FnvHash(w)); r.Some? && r.value.value.Postings? && r.value.value.word == w
  {
  }

  // The number of occurrences of the query words in a text.
  function CountAll(s: Text, query: seq<Text>): int
  {
    if query == [] then 0 else CountAll(s, Init(query)) + |Starts(s, Last(query), |s|)|
  }

  lemma TableReadsText(names: Table<Value>, ids: Table<DocIdCell>, maxId: Key, t: Table<Value>,
                       texts: Texts, w: Text, d: Key)
    requires Describes(names, ids, maxId, t, texts) && |t| > 0
    requires QueryAgreement.NoCollision(t, w) && HashPostings(t, w).Some?
    ensures var table := HashPostings(t, w).value;
            && |table| > 0
            && (T.Find(table, d).Some? <==> d in texts && IsWord(texts[d], w))
            && (T.Find(table, d).Some? ==> CountIn(T.Find(table, d).value) == |Starts(texts[d], w, |texts[d]|)|)
  {
    hide T.Find, FnvHash, Starts, IsWord, IsMemIndex, IsPostingTable;
    Pairs(t, FnvHash(w));
    Documents(HashPostings(t, w).value);
    assert PositionsAt(t, w, d)
        == if d in texts && IsWord(texts[d], w) then Some(AsPositions(Starts(texts[d], w, |texts[d]|))) else None;
  }

  // The tables agree with the text, word by word.
  ghost predicate Reads(tables: seq<Table<Value>>, s: Text, query: seq<Text>, d: Key)
  {
    |tables| == |query| && forall i :: 0 <= i < |query| ==> ReadsWord(tables[i], s, query[i], d)
  }

  ghost predicate ReadsWord(table: Table<Value>, s: Text, w: Text, d: Key)
  {
    |table| > 0 && T.Find(table, d).Some? && CountIn(T.Find(table, d).value) == |Starts(s, w, |s|)|
  }

  lemma {:induction false} RankCounts(tables: seq<Table<Value>>, s: Text, query: seq<Text>, d: Key)
    requires Reads(tables, s, query, d)
    ensures forall i :: 0 <= i < |tables| ==> |tables[i]| > 0
    ensures Occurrences(tables, d) == CountAll(s, query)
  {
    hide T.Find, Starts;
    assert forall i :: 0 <= i < |tables| ==> ReadsWord(tables[i], s, query[i], d);
    if query != [] {
      RankCounts(Init(tables), s, Init(query), d);
      assert ReadsWord(Last(tables), s, Last(query), d);
    }
  }

  // A described index answers for its texts: a document matches exactly when its text
  // contains every query word, and its rank is the number of times it does.
  lemma SearchReadsTexts(names: Table<Value>, ids: Table<DocIdCell>, maxId: Key, t: Table<Value>, texts: Texts,
                         query: seq<Text>, d: Key)
    requires Describes(names, ids, maxId, t, texts) && query != []
    requires IsMemIndex(t) && |t| > 0 && TablesFor(t, query).Some?
    requires forall i :: 0 <= i < |query| ==> QueryAgreement.NoCollision(t, query[i])
    ensures IsMatch(t, query, d) <==> d in texts && forall i :: 0 <= i < |query| ==> IsWord(texts[d], query[i])
    ensures IsMatch(t, query, d) ==> Rank(t, query, d) == CountAll(texts[d], query)
  {
    hide T.Find, Starts, TablesFor, Describes, IsWord, IsMatch, Rank, QueryAgreement.NoCollision,
         HashPostings, Occurrences, CountIn, CountAll, IsMemIndex;
    MatchParts(t, query, d);
    var tables := TablesFor(t, query).value;
    forall i | 0 <= i < |query|
      ensures |tables[i]| > 0 && (T.Find(tables[i], d).Some? <==> d in texts && IsWord(texts[d], query[i]))
      ensures T.Find(tables[i], d).Some? ==> ReadsWord(tables[i], texts[d], query[i], d)
    {
      assert HashPostings(t, query[i]) == Some(tables[i]);
      TableReadsText(names, ids, maxId, t, texts, query[i], d);
    }
    if IsMatch(t, query, d) {
      assert T.Find(tables[0], d).Some?;
      RankCounts(tables, texts[d], query, d);
    }
  }

  // The text of the document has every query word.
  ghost predicate TextMatches(texts: Texts, query: seq<Text>, d: Key)
  {
    d in texts && forall i :: 0 <= i < |query| ==> IsWord(texts[d], query[i])
  }

  // MemIndex_Search answers with the null pointer exactly when no text has every word.
  lemma NullWithoutMatch(names: Table<Value>, ids: Table<DocIdCell>, maxId: Key, t: Table<Value>, texts: Texts,
                         query: seq<Text>)
    requires Describes(names, ids, maxId, t, texts) && query != [] && IsMemIndex(t) && |t| > 0
    requires forall i :: 0 <= i < |query| ==> QueryAgreement.NoCollision(t, query[i])
    ensures Answer(t, query).None? <==> forall d: Key :: !TextMatches(texts, query, d)
  {
    hide T.Find, FnvHash, Starts, TablesFor, IsWord, IsMatch, QueryAgreement.NoCollision,
         HashPostings, IsMemIndex, Describes, Answer;
    SearchFails(t, query);
    if TablesFor(t, query).None? {
      var i :| 0 <= i < |query| && HashPostings(t, query[i]) == None;
      forall d: Key
        ensures !TextMatches(texts, query, d)
      {
        MissingWord(names, ids, maxId, t, texts, query[i], d);
      }
    } else {
      forall d: Key
        ensures IsMatch(t, query, d) <==> TextMatches(texts, query, d)
      {
        SearchReadsTexts(names, ids, maxId, t, texts, query, d);
      }
      if |query| == 1 {
        OneWordMatches(names, ids, maxId, t, texts, query);
      }
    }
  }

  lemma MissingWord(names: Table<Value>, ids: Table<DocIdCell>, maxId: Key, t: Table<Value>,
                    texts: Texts, w: Text, d: Key)
    requires Describes(names, ids, maxId, t, texts) && |t| > 0 && HashPostings(t, w) == None
    ensures d in texts ==> !IsWord(texts[d], w)
  {
    hide T.Find, FnvHash, Starts, IsWord, IsMemIndex, Paired, AsPositions;
    Pairs(t, FnvHash(w));
    assert PositionsAt(t, w, d) == None;
  }

  lemma OneWordMatches(names: Table<Value>, ids: Table<DocIdCell>, maxId: Key, t: Table<Value>,
                       texts: Texts, query: seq<Text>)
    requires Describes(names, ids, maxId, t, texts) && IsMemIndex(t) && |t| > 0
    requires |query| == 1 && TablesFor(t, query).Some?
    ensures exists d: Key :: IsMatch(t, query, d)
  {
    hide T.Find, FnvHash, Starts, IsWord, IsMemIndex, Paired, AsPositions, IsMatch, TablesFor;
    Pairs(t, FnvHash(query[0]));
    var table := TablesFor(t, query).value[0];
    assert HashPostings(t, query[0]) == Some(table);
    assert OnlyWords(T.Find(t, FnvHash(query[0])));
    var d: Key :| T.Find(table, d).Some?;
    MatchParts(t, query, d);
    assert IsMatch(t, query, d);
  }

  lemma MatchParts(t: Table<Value>, query: seq<Text>, d: Key)
    requires IsMemIndex(t) && |t| > 0 && TablesFor(t, query).Some?
    ensures forall i :: 0 <= i < |query| ==> |TablesFor(t, query).value[i]| > 0
    ensures IsMatch(t, query, d) <==> forall i :: 0 <= i < |query| ==> T.Find(TablesFor(t, query).value[i], d).Some?
    ensures Rank(t, query, d) == Occurrences(TablesFor(t, query).value, d)
  {
    hide T.Find, TablesFor, Occurrences;
    TablesNonEmpty(t, query);
  }

  // What searching the file needs to know about the tables holds of every index that
  // was built by adding files: documents have names, no two the same.
  lemma DescribedIsComparable(names: Table<Value>, ids: Table<DocIdCell>, maxId: Key, t: Table<Value>, texts: Texts,
                              query: seq<Text>)
    requires Describes(names, ids, maxId, t, texts) && |t| > 0
    requires forall i :: 0 <= i < |query| ==> QueryAgreement.NoCollision(t, query[i])
    ensures IsDocTable(names) && QueryAgreement.Comparable(names, t, query)
  {
    hide T.Find, FnvHash, Starts, IsWord, IsMemIndex, QueryAgreement.NoCollision;
    NamesAreApart(names, ids, maxId);
    forall key: Key | T.Find(t, key).Some? && T.Find(t, key).value.value.Postings?
      ensures QueryAgreement.Named(names, T.Find(t, key).value.value.table)
    {
      TableIsNamed(names, ids, maxId, t, texts, key);
    }
    QueryAgreement.ApartIsPostedApart(names, t);
  }

  lemma NamesAreApart(names: Table<Value>, ids: Table<DocIdCell>, maxId: Key)
    requires Paired(names, ids, maxId)
    ensures IsDocTable(names) && |names| > 0 && QueryAgreement.NamesApart(names)
    ensures forall d: Key :: T.Find(names, d).Some? <==> 1 <= d < maxId
  {
    hide T.Find, FnvHash;
    PairedParts(names, ids, maxId);
    forall b, j | 0 <= b < |names| && 0 <= j < |names[b].kvs|
      ensures names[b].kvs[j].value.DocName?
    {
      T.MemberFound(names, b, j);
      assert LeadsBack(T.Find(names, names[b].kvs[j].key).value, ids);
    }
    forall d: Key | T.Find(names, d).Some?
      ensures NameOfId(names, d) == Some(QueryAgreement.NameOf(names, d))
      ensures IdOf(ids, QueryAgreement.NameOf(names, d)) == d
    {
      NameThenId(names, ids, maxId, d);
      assert LeadsBack(T.Find(names, d).value, ids);
    }
  }

  lemma TableIsNamed(names: Table<Value>, ids: Table<DocIdCell>, maxId: Key, t: Table<Value>, texts: Texts, key: Key)
    requires Describes(names, ids, maxId, t, texts) && |t| > 0
    requires T.Find(t, key).Some? && T.Find(t, key).value.value.Postings?
    ensures |names| > 0 && QueryAgreement.Named(names, T.Find(t, key).value.value.table)
  {
    hide T.Find, FnvHash, Starts, IsWord, IsMemIndex, IsPostingTable, Paired, AsPositions;
    NamesAreApart(names, ids, maxId);
    Pairs(t, key);
    var w, table := T.Find(t, key).value.value.word, T.Find(t, key).value.value.table;
    Documents(table);
    forall d: Key | T.Find(table, d).Some?
      ensures T.Find(names, d).Some?
    {
      assert PositionsAt(t, w, d).Some?;
    }
  }

  // WriteIndex never reports failure for an index that was built by adding files.
  lemma DescribedHasNoEmptyWord(names: Table<Value>, ids: Table<DocIdCell>, maxId: Key, t: Table<Value>, texts: Texts)
    requires Describes(names, ids, maxId, t, texts) && EncodableTable(t)
    ensures !TableHasEmptyWord(names) && !TableHasEmptyWord(t)
  {
    hide T.Find, FnvHash, Starts, IsWord, Paired, AsPositions, PositionsAt, TableHasEmptyWord, HasEmptyWord, IsDocTable,
         EncodableTable, Encodable;
    NamesAreApart(names, ids, maxId);
    forall b, j | 0 <= b < |t| && 0 <= j < |t[b].kvs|
      ensures !HasEmptyWord(t[b].kvs[j])
    {
      T.MemberFound(t, b, j);
      assert OnlyWords(T.Find(t, t[b].kvs[j].key));
      assert IsPostings(t[b].kvs[j]);
      NoWordInside(t[b].kvs[j].value.table);
      EncodableElement(t, b, j);
      AWordIsNotEmpty(t[b].kvs[j]);
    }
    NoneIsEmpty(t);
    QueryAgreement.NoWords(names);
  }

  lemma AWordIsNotEmpty(kv: KV<Value>)
    requires kv.value.Postings? && kv.value.word != [] && !TableHasEmptyWord(kv.value.table) && Encodable(kv)
    ensures !HasEmptyWord(kv)
  {
    WrittenAll(kv.value.word);
    hide Written, TableHasEmptyWord, EncodableTable;
  }

  lemma EncodableElement(t: Table<Value>, b: nat, j: nat)
    requires EncodableTable(t) && b < |t| && j < |t[b].kvs|
    ensures Encodable(t[b].kvs[j])
  {
  }

  lemma NoneIsEmpty(t: Table<Value>)
    requires forall b, j :: 0 <= b < |t| && 0 <= j < |t[b].kvs| ==> !HasEmptyWord(t[b].kvs[j])
    ensures !TableHasEmptyWord(t)
  {
    hide HasEmptyWord;
    forall b | 0 <= b < |t|
      ensures !BucketHasEmptyWord(t[b].kvs)
    {
    }
  }

  lemma NoWordInside(table: Table<Value>)
    requires IsPostingTable(table)
    ensures !TableHasEmptyWord(table)
  {
    forall b, j | 0 <= b < |table| && 0 <= j < |table[b].kvs|
      ensures !HasEmptyWord(table[b].kvs[j])
    {
    }
    NoneIsEmpty(table);
  }
}
