/**
 The document table (hw2/DocTable.c): two hash tables, from ids to names and
 from hashes of names to ids, that are kept as inverses of each other.
 */
module DocTable {
  import opened Common
  import opened DiskLayout
  import opened Fnv
  import opened HashTable
  import T = Tables

  type Name = seq<Byte>

  // The id that a pointer in the table of names leads to.
  datatype DocIdCell = DocIdCell(docId: Key)

  const HASHTABLE_INITIAL_NUM_BUCKETS := 2
  const INVALID_DOCID: Key := 0
  const MAX_DOCID: Key := 0xFFFF_FFFF_FFFF_FFFF

  // The ids in use are 1 up to, but not including, maxId; every id has a name, and
  // the hash of the name leads back to the id.
  ghost predicate Paired(names: Table<Value>, ids: Table<DocIdCell>, maxId: Key)
  {
    && T.WellFormed(names) && T.WellFormed(ids) && 1 <= maxId
    && (forall d: Key :: T.Find(names, d).Some? <==> 1 <= d < maxId)
    && (forall d: Key :: T.Find(names, d).Some? ==> LeadsBack(T.Find(names, d).value, ids))
    && (forall h: Key :: T.Find(ids, h).Some? ==> LeadsBackId(T.Find(ids, h).value, names))
  }

  ghost predicate LeadsBack(kv: KV<Value>, ids: Table<DocIdCell>)
    requires |ids| > 0
  {
    kv.value.DocName? && T.Find(ids, FnvHash(kv.value.name)) == Some(KV(FnvHash(kv.value.name), DocIdCell(kv.key)))
  }

  ghost predicate LeadsBackId(kv: KV<DocIdCell>, names: Table<Value>)
    requires |names| > 0
  {
    var r := T.Find(names, kv.value.docId);
    r.Some? && r.value.value.DocName? && FnvHash(r.value.value.name) == kv.key
  }

  // The id under which a name is known, if the hash of the name is.
  function IdOf(ids: Table<DocIdCell>, name: Name): Key
    requires |ids| > 0
  {
    match T.Find(ids, FnvHash(name))
    case None => INVALID_DOCID
    case Some(kv) => kv.value.docId
  }

  function NameOfId(names: Table<Value>, d: Key): Option<Name>
    requires |names| > 0
  {
    match T.Find(names, d)
    case None => None
    case Some(kv) => if kv.value.DocName? then Some(kv.value.name) else None
  }

  class DocTable {
    const idToName: HashTable<Value>
    const nameToId: HashTable<DocIdCell>
    var maxId: Key

    ghost function Repr(): set<object>
      reads this, idToName, nameToId
    {
      {this} + idToName.Repr + nameToId.Repr
    }

    ghost predicate Valid()
      reads this, idToName, nameToId, idToName.Repr, nameToId.Repr
      ensures Valid() ==>
                && idToName.Valid() && nameToId.Valid() && this !in idToName.Repr && this !in nameToId.Repr
                && idToName.Repr !! nameToId.Repr && Paired(idToName.table, nameToId.table, maxId)
    {
      && idToName.Valid() && nameToId.Valid() && this !in idToName.Repr && this !in nameToId.Repr
      && idToName.Repr !! nameToId.Repr && Paired(idToName.table, nameToId.table, maxId)
    }

    // DocTable_Allocate.
    constructor ()
      ensures Valid() && fresh(idToName.Repr) && fresh(nameToId.Repr) && maxId == 1
      ensures idToName.table == T.EmptyTable(HASHTABLE_INITIAL_NUM_BUCKETS)
      ensures nameToId.table == T.EmptyTable(HASHTABLE_INITIAL_NUM_BUCKETS)
    {
      idToName := new HashTable<Value>(HASHTABLE_INITIAL_NUM_BUCKETS);
      nameToId := new HashTable<DocIdCell>(HASHTABLE_INITIAL_NUM_BUCKETS);
      maxId := 1;
      new;
      NothingPaired();
    }

    method GetDocID(docName: Name) returns (d: Key)
      requires Valid()
      ensures d == IdOf(nameToId.table, docName)
      ensures d == 0 <==> T.Find(nameToId.table, FnvHash(docName)).None?
    {
      hide *;
      IdOfValue(nameToId.table, docName);
      ZeroIsNoId(idToName.table, nameToId.table, maxId, docName);
      var key := FNVHash64(docName);
      var kv := nameToId.Find(key);
      d := if kv.Some? then kv.value.value.docId else INVALID_DOCID;
    }

    method GetDocName(docId: Key) returns (name: Option<Name>)
      requires Valid() && docId != INVALID_DOCID
      ensures name == NameOfId(idToName.table, docId)
    {
      hide *;
      NameOfIdValue(idToName.table, nameToId.table, maxId, docId);
      var kv := idToName.Find(docId);
      name := if kv.Some? then Some(kv.value.value.name) else None;
    }

    // Adding a name whose hash is known returns the id of the name that has it.
    method Add(docName: Name) returns (d: Key)
      requires Valid() && maxId < MAX_DOCID
      modifies this, idToName.Repr, nameToId.Repr
      ensures Valid() && fresh(idToName.Repr - old(idToName.Repr)) && fresh(nameToId.Repr - old(nameToId.Repr))
      ensures d != INVALID_DOCID && d == IdOf(nameToId.table, docName)
      ensures var known := IdOf(old(nameToId.table), docName);
              if known != INVALID_DOCID then
                && d == known && maxId == old(maxId)
                && idToName.table == old(idToName.table) && nameToId.table == old(nameToId.table)
              else
                && d == old(maxId) && maxId == d + 1 && NameOfId(idToName.table, d) == Some(docName)
                && idToName.table == T.InsertInto(T.Resized(old(idToName.table)), KV(d, DocName(docName)))
                && nameToId.table == T.InsertInto(T.Resized(old(nameToId.table)), KV(FnvHash(docName), DocIdCell(d)))
                && (forall e: Key :: e != d ==> NameOfId(idToName.table, e) == NameOfId(old(idToName.table), e))
                && (forall n: Name :: FnvHash(n) != FnvHash(docName) ==>
                   IdOf(nameToId.table, n) == IdOf(old(nameToId.table), n))
    {
      hide *;
      var res := GetDocID(docName);
      KnownIsValid(idToName.table, nameToId.table, maxId, docName);
      if res != INVALID_DOCID {
        return res;
      }
      d := maxId;
      AddedPaired(idToName.table, nameToId.table, d, docName);
      maxId := maxId + 1;
      var _ := idToName.Insert(KV(d, DocName(docName)));
      var key := FNVHash64(docName);
      var _ := nameToId.Insert(KV(key, DocIdCell(d)));
      Intro();
    }

    lemma Intro()
      requires idToName.Valid() && nameToId.Valid() && this !in idToName.Repr && this !in nameToId.Repr
      requires idToName.Repr !! nameToId.Repr && Paired(idToName.table, nameToId.table, maxId)
      ensures Valid()
    {
    }
  }

  lemma NothingPaired()
    ensures Paired(T.EmptyTable<Value>(HASHTABLE_INITIAL_NUM_BUCKETS),
                   T.EmptyTable<DocIdCell>(HASHTABLE_INITIAL_NUM_BUCKETS), 1)
  {
  }

  lemma IdOfValue(ids: Table<DocIdCell>, name: Name)
    requires |ids| > 0
    ensures var r := T.Find(ids, FnvHash(name));
            IdOf(ids, name) == if r.Some? then r.value.value.docId else INVALID_DOCID
  {
  }

  // The invalid id is 0, and no document has it.
  lemma ZeroIsNoId(names: Table<Value>, ids: Table<DocIdCell>, maxId: Key, name: Name)
    requires Paired(names, ids, maxId)
    ensures |ids| > 0 && (IdOf(ids, name) == 0 <==> T.Find(ids, FnvHash(name)).None?)
  {
    hide T.Find, FnvHash;
    var r := T.Find(ids, FnvHash(name));
    assert r.Some? ==> LeadsBackId(r.value, names);
  }

  lemma NameOfIdValue(names: Table<Value>, ids: Table<DocIdCell>, maxId: Key, d: Key)
    requires Paired(names, ids, maxId)
    ensures |names| > 0 && (T.Find(names, d).Some? ==> T.Find(names, d).value.value.DocName?)
    ensures NameOfId(names, d) == if T.Find(names, d).Some? then Some(T.Find(names, d).value.value.name) else None
  {
    hide T.Find, FnvHash;
    assert T.Find(names, d).Some? ==> LeadsBack(T.Find(names, d).value, ids);
  }

  lemma KnownIsValid(names: Table<Value>, ids: Table<DocIdCell>, maxId: Key, name: Name)
    requires Paired(names, ids, maxId)
    ensures |names| > 0 && |ids| > 0 && 1 <= maxId && INVALID_DOCID == 0
    ensures T.Find(ids, FnvHash(name)).Some? <==> IdOf(ids, name) != INVALID_DOCID
  {
    hide T.Find, FnvHash;
    var r := T.Find(ids, FnvHash(name));
    assert r.Some? ==> LeadsBackId(r.value, names);
    assert r.Some? ==> T.Find(names, r.value.value.docId).Some?;
  }

  lemma AddedPaired(names: Table<Value>, ids: Table<DocIdCell>, d: Key, name: Name)
    requires Paired(names, ids, d) && d < MAX_DOCID && T.Find(ids, FnvHash(name)).None?
    requires T.Size(names) <= 3 * |names| && T.Size(ids) <= 3 * |ids|
    ensures |names| > 0 && |ids| > 0
    ensures var names' := T.InsertInto(T.Resized(names), KV(d, DocName(name)));
            var ids' := T.InsertInto(T.Resized(ids), KV(FnvHash(name), DocIdCell(d)));
            && Paired(names', ids', d + 1) && d != INVALID_DOCID && d == IdOf(ids', name)
            && NameOfId(names', d) == Some(name)
            && (forall e: Key :: e != d ==> NameOfId(names', e) == NameOfId(names, e))
            && (forall n: Name :: FnvHash(n) != FnvHash(name) ==> IdOf(ids', n) == IdOf(ids, n))
  {
    hide T.Find, FnvHash, T.InsertInto, T.Resized, LeadsBack, LeadsBackId;
    PairedParts(names, ids, d);
    var h := FnvHash(name);
    var names' := T.InsertInto(T.Resized(names), KV(d, DocName(name)));
    var ids' := T.InsertInto(T.Resized(ids), KV(h, DocIdCell(d)));
    T.InsertedFinds(names, KV(d, DocName(name)));
    T.InsertedFinds(ids, KV(h, DocIdCell(d)));
    forall e: Key | T.Find(names', e).Some?
      ensures LeadsBack(T.Find(names', e).value, ids')
    {
      StillLeadsBack(names, ids, d, name, e, names', ids');
    }
    forall k: Key | T.Find(ids', k).Some?
      ensures LeadsBackId(T.Find(ids', k).value, names')
    {
      StillLeadsBackId(names, ids, d, name, k, names', ids');
    }
  }

  lemma PairedParts(names: Table<Value>, ids: Table<DocIdCell>, maxId: Key)
    requires Paired(names, ids, maxId)
    ensures |names| > 0 && |ids| > 0 && 1 <= maxId
  {
  }

  lemma StillLeadsBack(names: Table<Value>, ids: Table<DocIdCell>, d: Key, name: Name, e: Key,
                       names': Table<Value>, ids': Table<DocIdCell>)
    requires Paired(names, ids, d) && T.Find(ids, FnvHash(name)).None? && |names'| > 0 && |ids'| > 0
    requires forall k: Key :: T.Find(names', k) == if k == d then Some(KV(d, DocName(name))) else T.Find(names, k)
    requires forall k: Key ::
             T.Find(ids', k) == if k == FnvHash(name) then Some(KV(FnvHash(name), DocIdCell(d))) else T.Find(ids, k)
    requires T.Find(names', e).Some?
    ensures LeadsBack(T.Find(names', e).value, ids')
  {
    hide T.Find, FnvHash;
    if e != d {
      assert LeadsBack(T.Find(names, e).value, ids);
    }
  }

  lemma StillLeadsBackId(names: Table<Value>, ids: Table<DocIdCell>, d: Key, name: Name, h: Key,
                         names': Table<Value>, ids': Table<DocIdCell>)
    requires Paired(names, ids, d) && |names'| > 0 && |ids'| > 0
    requires forall k: Key :: T.Find(names', k) == if k == d then Some(KV(d, DocName(name))) else T.Find(names, k)
    requires forall k: Key ::
             T.Find(ids', k) == if k == FnvHash(name) then Some(KV(FnvHash(name), DocIdCell(d))) else T.Find(ids, k)
    requires T.Find(ids', h).Some?
    ensures LeadsBackId(T.Find(ids', h).value, names')
  {
    hide T.Find, FnvHash;
    if h != FnvHash(name) {
      assert LeadsBackId(T.Find(ids, h).value, names);
      assert T.Find(names, d).None?;
    }
  }

  // Looking up the name of an id gives the id back; so no two ids share a name.
  lemma NameThenId(names: Table<Value>, ids: Table<DocIdCell>, maxId: Key, d: Key)
    requires Paired(names, ids, maxId)
    ensures |names| > 0 && |ids| > 0
    ensures NameOfId(names, d).Some? <==> 1 <= d < maxId
    ensures NameOfId(names, d).Some? ==> IdOf(ids, NameOfId(names, d).value) == d
  {
    hide T.Find, FnvHash;
    PairedParts(names, ids, maxId);
    T.FoundKey(names, d);
    assert T.Find(names, d).Some? ==> LeadsBack(T.Find(names, d).value, ids);
  }

  // Looking up the id of a name gives a name with the same hash back: the name
  // itself exactly when no other name with its hash was added before it.
  lemma IdThenName(names: Table<Value>, ids: Table<DocIdCell>, maxId: Key, name: Name)
    requires Paired(names, ids, maxId)
    ensures |names| > 0 && |ids| > 0
    ensures var d := IdOf(ids, name);
            && (d != INVALID_DOCID ==> NameOfId(names, d).Some? && FnvHash(NameOfId(names, d).value) == FnvHash(name))
            && (d == INVALID_DOCID ==> forall e: Key :: NameOfId(names, e).Some? ==>
               FnvHash(NameOfId(names, e).value) != FnvHash(name))
    ensures (exists e: Key :: NameOfId(names, e) == Some(name)) <==>
            (IdOf(ids, name) != INVALID_DOCID && NameOfId(names, IdOf(ids, name)) == Some(name))
  {
    hide T.Find, FnvHash;
    PairedParts(names, ids, maxId);
    var r := T.Find(ids, FnvHash(name));
    T.FoundKey(ids, FnvHash(name));
    assert r.Some? ==> LeadsBackId(r.value, names);
    forall e: Key | NameOfId(names, e).Some?
      ensures IdOf(ids, NameOfId(names, e).value) == e && 1 <= e
    {
      NameThenId(names, ids, maxId, e);
    }
    if r.Some? {
      assert T.Find(names, r.value.value.docId).Some?;
    }
  }
}
