/**
 The tokenizer (hw2/FileParser.c): one pass over a character buffer that
 lower-cases words and terminates them in place.
 */
module FileParser {
  import opened Common
  import opened DiskLayout
  import opened Fnv
  import opened HashTable
  import opened LayoutStructs
  import T = Tables

  datatype WordPositions = WordPositions(word: seq<Byte>, positions: seq<int>)

  type Text = seq<Byte>

  const ASCII_UPPER_BOUND := 0x7F

  predicate IsAlpha(c: Byte)
  {
    (0x41 <= c <= 0x5A) || (0x61 <= c <= 0x7A)
  }

  function ToLower(c: Byte): Byte
  {
    if 0x41 <= c <= 0x5A then c + 0x20 else c
  }

  function Lower(s: Text): (r: Text)
    ensures |r| == |s| && forall i :: 0 <= i < |s| ==> r[i] == ToLower(s[i])
  {
    if s == [] then [] else Lower(Init(s)) + [ToLower(Last(s))]
  }

  // ----- what the tokens of a text are -----

  // s[i..j] is a maximal run of letters, and a non-letter follows it.
  ghost predicate IsToken(s: Text, i: int, j: int)
  {
    && 0 <= i < j < |s| && !IsAlpha(s[j]) && (i > 0 ==> !IsAlpha(s[i - 1]))
    && forall k :: i <= k < j ==> IsAlpha(s[k])
  }

  // Where the run of letters that ends before j starts.
  function RunStart(s: Text, j: int): (i: int)
    requires 0 <= j <= |s|
    ensures 0 <= i <= j && (i > 0 ==> !IsAlpha(s[i - 1])) && forall k :: i <= k < j ==> IsAlpha(s[k])
  {
    if j == 0 || !IsAlpha(s[j - 1]) then j else RunStart(s, j - 1)
  }

  lemma OneStart(s: Text, i: int, j: int)
    requires 0 <= j < |s|
    ensures IsToken(s, i, j) <==> !IsAlpha(s[j]) && RunStart(s, j) == i < j
  {
    var r := RunStart(s, j);
  }

  // The places where the word starts, for tokens that end before k, in order.
  function Starts(s: Text, word: Text, k: int): (ps: seq<int>)
    requires 0 <= k <= |s|
    ensures forall p :: p in ps ==> 0 <= p < k
  {
    if k == 0 then []
    else
      var i := RunStart(s, k - 1);
      Starts(s, word, k - 1)
      + if i < k - 1 && !IsAlpha(s[k - 1]) && Lower(s[i..k - 1]) == word then [i] else []
  }

  // The word starts at i, and the token that starts there ends before k.
  ghost predicate StartsAt(s: Text, word: Text, i: int, k: int)
    requires k <= |s|
  {
    exists j :: j < k && IsToken(s, i, j) && Lower(s[i..j]) == word
  }

  lemma StartsAtNext(s: Text, word: Text, i: int, k: int)
    requires 0 < k <= |s|
    ensures StartsAt(s, word, i, k) <==>
            || StartsAt(s, word, i, k - 1)
            || (RunStart(s, k - 1) == i < k - 1 && !IsAlpha(s[k - 1]) && Lower(s[i..k - 1]) == word)
  {
    hide Lower, RunStart;
    OneStart(s, i, k - 1);
    if StartsAt(s, word, i, k) {
      var j :| j < k && IsToken(s, i, j) && Lower(s[i..j]) == word;
      assert j < k - 1 || j == k - 1;
    }
    if IsToken(s, i, k - 1) {
      assert k - 1 < k;
    }
  }

  // Starts lists exactly the occurrences of the word.
  lemma {:induction false} StartsExact(s: Text, word: Text, k: int)
    requires 0 <= k <= |s|
    ensures forall i :: i in Starts(s, word, k) <==> StartsAt(s, word, i, k)
  {
    hide Lower, RunStart, StartsAt;
    if k > 0 {
      StartsExact(s, word, k - 1);
      forall i
        ensures i in Starts(s, word, k) <==> StartsAt(s, word, i, k)
      {
        StartsAtNext(s, word, i, k);
      }
    } else {
      forall i
        ensures !StartsAt(s, word, i, 0)
      {
        NothingStarts(s, word, i);
      }
    }
  }

  lemma NothingStarts(s: Text, word: Text, i: int)
    ensures !StartsAt(s, word, i, 0)
  {
  }

  lemma StartsBefore(s: Text, word: Text, i: int, k: int)
    requires 0 <= k < |s| && StartsAt(s, word, i, k)
    ensures i < RunStart(s, k)
  {
    var j :| j < k && IsToken(s, i, j) && Lower(s[i..j]) == word;
  }

  // ----- which words are left out -----

  // s[i..j] is a maximal run of letters, whatever follows it.
  ghost predicate IsRun(s: Text, i: int, j: int)
  {
    && 0 <= i < j <= |s| && (i > 0 ==> !IsAlpha(s[i - 1])) && (j < |s| ==> !IsAlpha(s[j]))
    && forall k :: i <= k < j ==> IsAlpha(s[k])
  }

  // The word of the run is listed at the place where the run starts.
  ghost predicate IsRecorded(s: Text, i: int, j: int)
    requires 0 <= i <= j <= |s|
  {
    i in Starts(s, Lower(s[i..j]), |s|)
  }

  // A run of letters is recorded exactly when something follows it.
  lemma RunRecordedIff(s: Text, i: int, j: int)
    requires IsRun(s, i, j)
    ensures IsRecorded(s, i, j) <==> j < |s|
  {
    hide Starts, Lower;
    StartsExact(s, Lower(s[i..j]), |s|);
    if j < |s| {
      assert IsToken(s, i, j);
    } else {
      assert forall e :: e < |s| ==> !IsToken(s, i, e);
    }
  }

  // All words of a text are recorded exactly when it does not end in a letter.
  lemma AllRecordedIff(s: Text)
    ensures (forall i, j :: IsRun(s, i, j) ==> IsRecorded(s, i, j)) <==> s == [] || !IsAlpha(s[|s| - 1])
  {
    hide IsRecorded, Starts, RunStart;
    forall i, j | IsRun(s, i, j)
      ensures IsRecorded(s, i, j) <==> j < |s|
    {
      RunRecordedIff(s, i, j);
    }
    if s != [] && IsAlpha(s[|s| - 1]) {
      assert IsRun(s, RunStart(s, |s|), |s|);
    }
  }

  // The text "a b": its word b is not recorded anywhere.
  lemma LastWordIsLost()
    ensures var s: Text := [0x61, 0x20, 0x62]; IsRun(s, 2, 3) && !IsWord(s, [0x62]) && IsWord(s, [0x61])
  {
    var s: Text := [0x61, 0x20, 0x62];
    LowerOne(0x61);
    assert s[0..1] == [0x61];
    forall w
      ensures Starts(s, w, 3) == if w == [0x61] then [0] else []
    {
      assert Starts(s, w, 1) == [];
      assert RunStart(s, 1) == 0 && RunStart(s, 2) == 2;
    }
  }

  lemma LowerOne(c: Byte)
    ensures Lower([c]) == [ToLower(c)]
  {
  }

  // In ascending order.
  lemma {:induction false} StartsAscend(s: Text, word: Text, k: int)
    requires 0 <= k <= |s|
    ensures forall a, b :: 0 <= a < b < |Starts(s, word, k)| ==> Starts(s, word, k)[a] < Starts(s, word, k)[b]
  {
    hide Lower, RunStart, StartsAt;
    if k > 0 {
      StartsAscend(s, word, k - 1);
      StartsExact(s, word, k - 1);
      var before := Starts(s, word, k - 1);
      forall a | 0 <= a < |before|
        ensures before[a] < RunStart(s, k - 1)
      {
        assert before[a] in before;
        StartsBefore(s, word, before[a], k - 1);
      }
    }
  }

  // ----- the table of words -----

  // The word is one of the text's tokens.
  ghost predicate IsWord(s: Text, word: Text)
  {
    Starts(s, word, |s|) != []
  }

  // The same byte, or the two cases of one letter.
  predicate SameLetter(a: Byte, b: Byte)
  {
    a == b || (0x41 <= a <= 0x5A && b == a + 0x20) || (0x41 <= b <= 0x5A && a == b + 0x20)
  }

  lemma CaseOfLetter(a: Byte, b: Byte)
    ensures IsAlpha(a) <==> 0x61 <= ToLower(a) <= 0x7A
    ensures !IsAlpha(a) ==> ToLower(a) == a
    ensures SameLetter(a, ToLower(a))
    ensures ToLower(a) == ToLower(b) <==> SameLetter(a, b)
  {
  }

  predicate IsLowerCase(word: Text)
  {
    word != [] && forall i :: 0 <= i < |word| ==> 0x61 <= word[i] <= 0x7A
  }

  // Every recorded word consists of lower-case letters.
  lemma WordsAreLowerCase(s: Text, word: Text)
    requires IsWord(s, word)
    ensures IsLowerCase(word)
  {
    StartsExact(s, word, |s|);
    assert Starts(s, word, |s|)[0] in Starts(s, word, |s|);
    hide Starts, Lower, ToLower, IsAlpha;
    var i :| StartsAt(s, word, i, |s|);
    var j :| j < |s| && IsToken(s, i, j) && Lower(s[i..j]) == word;
    forall k | 0 <= k < |word|
      ensures 0x61 <= word[k] <= 0x7A
    {
      CaseOfLetter(s[i + k], 0);
      assert IsAlpha(s[i + k]) && word[k] == ToLower(s[i..j][k]);
    }
  }

  // No two words of the text have the same hash (Verify333 in AddWordPosition).
  ghost predicate HashesApart(s: Text)
  {
    forall v, w :: IsWord(s, v) && IsWord(s, w) && FnvHash(v) == FnvHash(w) ==> v == w
  }

  // The table lists every word of the tokens that end before k under its hash, with
  // all its occurrences.
  ghost predicate Indexed(t: Table<WordPositions>, s: Text, k: int)
    requires 0 <= k <= |s|
  {
    && T.WellFormed(t)
    && (forall key :: T.Find(t, key).Some? ==> Lists(T.Find(t, key).value, s, k))
    && (forall w :: Starts(s, w, k) != [] ==> T.Find(t, FnvHash(w)).Some?)
  }

  ghost predicate Lists(kv: KV<WordPositions>, s: Text, k: int)
    requires 0 <= k <= |s|
  {
    kv.key == FnvHash(kv.value.word) && kv.value.positions == Starts(s, kv.value.word, k) != []
  }

  // The word of the token that ends at k, if one does.
  function WordAt(s: Text, k: int): Option<Text>
    requires 0 <= k < |s|
  {
    if RunStart(s, k) < k && !IsAlpha(s[k]) then Some(Lower(s[RunStart(s, k)..k])) else None
  }

  lemma StartsNext(s: Text, word: Text, k: int)
    requires 0 <= k < |s|
    ensures Starts(s, word, k + 1) == Starts(s, word, k) + if WordAt(s, k) == Some(word) then [RunStart(s, k)] else []
  {
  }

  lemma {:induction false} StartsGrow(s: Text, word: Text, k: int)
    requires 0 <= k <= |s| && Starts(s, word, k) != []
    ensures IsWord(s, word)
    decreases |s| - k
  {
    hide Starts;
    if k < |s| {
      StartsNext(s, word, k);
      StartsGrow(s, word, k + 1);
    }
  }

  lemma NoTokenHere(t: Table<WordPositions>, s: Text, k: int)
    requires 0 <= k < |s| && Indexed(t, s, k) && WordAt(s, k) == None
    ensures Indexed(t, s, k + 1)
  {
    hide T.Find, FnvHash, Starts, WordAt;
    forall w
      ensures Starts(s, w, k + 1) == Starts(s, w, k)
    {
      StartsNext(s, w, k);
    }
    forall key | T.Find(t, key).Some?
      ensures Lists(T.Find(t, key).value, s, k + 1)
    {
      assert Lists(T.Find(t, key).value, s, k);
    }
  }

  // What the table has for a word already; the entry is for the word itself.
  lemma SameWord(t: Table<WordPositions>, s: Text, k: int)
    requires 0 <= k < |s| && Indexed(t, s, k) && WordAt(s, k).Some? && HashesApart(s)
    ensures |t| > 0
    ensures var w := WordAt(s, k).value; var r := T.Find(t, FnvHash(w));
            if r.Some? then r.value.value == WordPositions(w, Starts(s, w, k)) else Starts(s, w, k) == []
  {
    hide T.Find, FnvHash, Starts, WordAt;
    var w := WordAt(s, k).value;
    var r := T.Find(t, FnvHash(w));
    StartsNext(s, w, k);
    StartsGrow(s, w, k + 1);
    if r.Some? {
      T.FoundKey(t, FnvHash(w));
      assert Lists(r.value, s, k);
      StartsGrow(s, r.value.value.word, k);
    }
  }

  lemma TokenAdded(t: Table<WordPositions>, t': Table<WordPositions>, s: Text, k: int)
    requires 0 <= k < |s| && Indexed(t, s, k) && WordAt(s, k).Some? && T.WellFormed(t')
    requires var w := WordAt(s, k).value; var h := FnvHash(w);
             forall key :: T.Find(t', key) ==
               if key == h then Some(KV(h, WordPositions(w, Starts(s, w, k) + [RunStart(s, k)]))) else T.Find(t, key)
    ensures Indexed(t', s, k + 1)
  {
    hide T.Find, FnvHash, Starts, WordAt, RunStart;
    var w := WordAt(s, k).value;
    forall v
      ensures Starts(s, v, k + 1) == Starts(s, v, k) + if v == w then [RunStart(s, k)] else []
    {
      StartsNext(s, v, k);
    }
    forall key | T.Find(t', key).Some?
      ensures Lists(T.Find(t', key).value, s, k + 1)
    {
      if key != FnvHash(w) {
        T.FoundKey(t, key);
        assert Lists(T.Find(t, key).value, s, k);
      }
    }
  }

  // ----- the table that the parser builds -----

  // The table after AddWordPosition.
  function AddedWord(t: Table<WordPositions>, word: Text, pos: int): (r: Table<WordPositions>)
    requires |t| > 0
    ensures |r| > 0
  {
    var key := FnvHash(word);
    match T.Find(t, key)
    case None => T.InsertInto(T.Resized(t), KV(key, WordPositions(word, [pos])))
    case Some(kv) => T.SetIn(t, key, WordPositions(word, kv.value.positions + [pos]))
  }

  // The table of the words of the tokens that end before k.
  function WordTable(s: Text, k: int): (t: Table<WordPositions>)
    requires 0 <= k <= |s|
    ensures |t| > 0
  {
    if k == 0 then T.EmptyTable(PARSER_NUM_BUCKETS)
    else
      match WordAt(s, k - 1)
      case None => WordTable(s, k - 1)
      case Some(word) => AddedWord(WordTable(s, k - 1), word, RunStart(s, k - 1))
  }

  lemma WordTableNext(s: Text, k: int)
    requires 0 <= k < |s|
    ensures WordAt(s, k) == None ==> WordTable(s, k + 1) == WordTable(s, k)
    ensures WordAt(s, k).Some? ==> WordTable(s, k + 1) == AddedWord(WordTable(s, k), WordAt(s, k).value, RunStart(s, k))
  {
    hide WordAt, AddedWord, RunStart;
  }

  // It lists the words of the text, all of them with all their places.
  lemma {:induction false} WordTableIndexed(s: Text, k: int)
    requires 0 <= k <= |s| && HashesApart(s)
    ensures Indexed(WordTable(s, k), s, k) && T.Size(WordTable(s, k)) <= 3 * |WordTable(s, k)|
  {
    hide *;
    if k == 0 {
      NothingIndexed(s);
      NoWordTable(s);
    } else {
      WordTableIndexed(s, k - 1);
      WordTableNext(s, k - 1);
      if WordAt(s, k - 1) == None {
        NoTokenHere(WordTable(s, k - 1), s, k - 1);
      } else {
        AddedIsIndexed(WordTable(s, k - 1), s, k - 1);
      }
    }
  }

  lemma NoWordTable(s: Text)
    ensures WordTable(s, 0) == T.EmptyTable(PARSER_NUM_BUCKETS) && T.Size(WordTable(s, 0)) == 0
  {
    T.EmptySize<WordPositions>(PARSER_NUM_BUCKETS);
  }

  lemma AddedIsIndexed(t: Table<WordPositions>, s: Text, k: int)
    requires 0 <= k < |s| && Indexed(t, s, k) && WordAt(s, k).Some? && HashesApart(s) && T.Size(t) <= 3 * |t|
    ensures |t| > 0
    ensures var t' := AddedWord(t, WordAt(s, k).value, RunStart(s, k)); Indexed(t', s, k + 1) && T.Size(t') <= 3 * |t'|
  {
    hide *;
    SameWord(t, s, k);
    IndexedWellFormed(t, s, k);
    var word, pos := WordAt(s, k).value, RunStart(s, k);
    var found := T.Find(t, FnvHash(word));
    AddedWordValue(t, word, pos);
    if found.Some? {
      var wp := WordPositions(word, found.value.value.positions + [pos]);
      SetFinds(t, FnvHash(word), wp);
      T.SetWellFormed(t, FnvHash(word), wp);
    } else {
      var kv := KV(FnvHash(word), WordPositions(word, [pos]));
      assert Starts(s, word, k) + [pos] == [pos];
      T.InsertedFinds(t, kv);
      T.ResizedSame(t);
      T.InsertSize(T.Resized(t), kv);
    }
    TokenAdded(t, AddedWord(t, word, pos), s, k);
  }

  lemma AddedWordValue(t: Table<WordPositions>, word: Text, pos: int)
    requires |t| > 0
    ensures var r := T.Find(t, FnvHash(word));
            AddedWord(t, word, pos) ==
            if r.None? then T.InsertInto(T.Resized(t), KV(FnvHash(word), WordPositions(word, [pos])))
            else T.SetIn(t, FnvHash(word), WordPositions(word, r.value.value.positions + [pos]))
  {
    hide T.Find, T.InsertInto, T.Resized, T.SetIn, FnvHash;
  }

  // A chain of characters up to the first terminator.
  function CString(bytes: seq<Byte>): (s: Text)
    ensures |s| <= |bytes| && s == bytes[..|s|] && (|s| < |bytes| ==> bytes[|s|] == 0)
    ensures forall i :: 0 <= i < |s| ==> s[i] != 0
  {
    if bytes == [] || bytes[0] == 0 then [] else [bytes[0]] + CString(bytes[1..])
  }

  // ----- the methods -----

  // The characters of a word from its start to its terminator.
  method ReadWord(content: array<Byte>, start: nat) returns (word: Text)
    requires start < content.Length
    ensures word == CString(content[start..])
  {
    hide *;
    ghost var all := content[..];
    assert all[start..] == content[start..];
    var i := start;
    word := [];
    NothingRead(all, start);
    while i < content.Length && content[i] != 0
      invariant start <= i <= content.Length && content[..] == all
      invariant ReadSoFar(all, start, i, word)
    {
      OneMoreRead(all, start, i, word);
      word := word + [content[i]];
      i := i + 1;
    }
    AllRead(all, start, i, word);
  }

  // The characters from start to i are a word, so far.
  ghost predicate ReadSoFar(s: seq<Byte>, start: nat, i: nat, word: Text)
    requires start <= i <= |s|
  {
    CString(s[start..]) == word + CString(s[i..])
  }

  lemma NothingRead(s: seq<Byte>, start: nat)
    requires start <= |s|
    ensures ReadSoFar(s, start, start, [])
  {
    hide CString;
    assert [] + CString(s[start..]) == CString(s[start..]);
  }

  lemma OneMoreRead(s: seq<Byte>, start: nat, i: nat, word: Text)
    requires start <= i < |s| && s[i] != 0 && ReadSoFar(s, start, i, word)
    ensures ReadSoFar(s, start, i + 1, word + [s[i]])
  {
    CStringFrom(s, i);
    hide CString;
    var rest := CString(s[i + 1..]);
    assert word + ([s[i]] + rest) == word + [s[i]] + rest;
  }

  lemma AllRead(s: seq<Byte>, start: nat, i: nat, word: Text)
    requires start <= i <= |s| && (i == |s| || s[i] == 0) && ReadSoFar(s, start, i, word)
    ensures word == CString(s[start..])
  {
    CStringFrom(s, i);
    hide CString;
    assert word + [] == word;
  }

  // A chain of characters that starts at i.
  lemma CStringFrom(s: seq<Byte>, i: nat)
    requires i <= |s|
    ensures CString(s[i..]) == if i == |s| || s[i] == 0 then [] else [s[i]] + CString(s[i + 1..])
  {
    if i < |s| {
      assert s[i..][1..] == s[i + 1..];
    }
  }

  // The check that no other word has the hash of this one is discharged.
  method AddWordPosition(tab: HashTable<WordPositions>, word: Text, pos: int)
    requires tab.Valid()
    requires var r := T.Find(tab.table, FnvHash(word)); r.Some? ==> r.value.value.word == word
    modifies tab.Repr
    ensures tab.Valid() && fresh(tab.Repr - old(tab.Repr)) && |old(tab.table)| > 0
    ensures tab.table == AddedWord(old(tab.table), word, pos)
  {
    hide *;
    AddedWordValue(tab.table, word, pos);
    var hashKey := FNVHash64(word);
    var kv := tab.Find(hashKey);
    if kv.Some? {
      tab.SetValue(hashKey, WordPositions(word, kv.value.value.positions + [pos]));
    } else {
      var _ := tab.Insert(KV(hashKey, WordPositions(word, [pos])));
    }
  }

  lemma IndexedWellFormed(t: Table<WordPositions>, s: Text, k: int)
    requires 0 <= k <= |s| && Indexed(t, s, k)
    ensures T.WellFormed(t)
  {
  }

  lemma SetFinds(t: Table<WordPositions>, key: Key, wp: WordPositions)
    requires T.WellFormed(t) && T.Find(t, key).Some?
    ensures var t' := T.SetIn(t, key, wp);
            && T.WellFormed(t')
            && forall k: Key :: T.Find(t', k) == if k == key then Some(KV(key, wp)) else T.Find(t, k)
  {
    hide T.Find, T.SetIn;
    T.SetWellFormed(t, key, wp);
    forall k: Key
      ensures T.Find(T.SetIn(t, key, wp), k) == if k == key then Some(KV(key, wp)) else T.Find(t, k)
    {
      T.SetFind(t, key, wp, k);
    }
  }

  // The buffer when the first k characters of the text have been passed: the word in
  // progress is in lower case, and what lies ahead is untouched.
  ghost predicate PassedUpTo(now: seq<Byte>, bytes: seq<Byte>, s: Text, k: int)
  {
    && |now| == |bytes| > |s| >= k >= 0 && bytes[..|s|] == s && bytes[|s|] == 0
    && now[k..] == bytes[k..]
    && now[RunStart(s, k)..k] == Lower(s[RunStart(s, k)..k])
  }

  // The main loop.  Terminating and lower-casing a word never touches the text that
  // is still ahead, so the words found are those of the text as it was.
  method InsertContent(tab: HashTable<WordPositions>, content: array<Byte>, ghost s: Text)
    requires tab.Valid() && |s| < content.Length && |s| <= MAX_INT32 && s == CString(content[..])
    requires HashesApart(s) && tab.table == WordTable(s, 0) && content !in tab.Repr
    modifies tab.Repr, content
    ensures tab.Valid() && fresh(tab.Repr - old(tab.Repr)) && tab.table == WordTable(s, |s|)
  {
    hide *;
    var curPtr, wordStart := 0, 0;
    var newWord := true;
    ghost var bytes := content[..];
    PassedNothing(bytes, s);
    while content[curPtr] != 0
      invariant 0 <= curPtr <= |s| < content.Length
      invariant tab.Valid() && fresh(tab.Repr - old(tab.Repr)) && content !in tab.Repr
      invariant tab.table == WordTable(s, curPtr)
      invariant PassedUpTo(content[..], bytes, s, curPtr)
      invariant newWord <==> RunStart(s, curPtr) == curPtr
      invariant !newWord ==> wordStart == RunStart(s, curPtr)
      decreases |s| - curPtr
    {
      CharacterAhead(content[..], bytes, s, curPtr);
      WordTableNext(s, curPtr);
      if IsAlpha(content[curPtr]) {
        PassLetter(content[..], bytes, s, curPtr);
        content[curPtr] := ToLower(content[curPtr]);
        if newWord {
          wordStart := curPtr;
          newWord := false;
        }
      } else if !newWord {
        PassBoundary(content[..], bytes, s, curPtr);
        content[curPtr] := 0;
        var word := ReadWord(content, wordStart);
        CheckPasses(s, curPtr);
        AddWordPosition(tab, word, wordStart);
        newWord := true;
      } else {
        PassOther(content[..], bytes, s, curPtr);
      }
      curPtr := curPtr + 1;
    }
    CharacterAhead(content[..], bytes, s, curPtr);
  }

  // What the table has under the hash of the next word is for that word.
  lemma CheckPasses(s: Text, k: int)
    requires 0 <= k < |s| && HashesApart(s) && WordAt(s, k).Some?
    ensures var word := WordAt(s, k).value; var r := T.Find(WordTable(s, k), FnvHash(word));
            r.Some? ==> r.value.value.word == word
  {
    hide *;
    WordTableIndexed(s, k);
    SameWord(WordTable(s, k), s, k);
  }

  lemma PassedNothing(bytes: seq<Byte>, s: Text)
    requires |s| < |bytes| && s == CString(bytes)
    ensures PassedUpTo(bytes, bytes, s, 0) && RunStart(s, 0) == 0
  {
  }

  // The next character is the original one: a terminator just at the end.
  lemma CharacterAhead(now: seq<Byte>, bytes: seq<Byte>, s: Text, k: int)
    requires PassedUpTo(now, bytes, s, k) && s == CString(bytes)
    ensures 0 <= k <= |s| < |now|
    ensures if k < |s| then now[k] == s[k] != 0 else now[k] == 0
  {
    assert now[k..][0] == bytes[k..][0];
  }

  lemma PassLetter(now: seq<Byte>, bytes: seq<Byte>, s: Text, k: int)
    requires PassedUpTo(now, bytes, s, k) && k < |s| && now[k] == s[k] && IsAlpha(s[k])
    ensures PassedUpTo(now[k := ToLower(s[k])], bytes, s, k + 1)
    ensures RunStart(s, k + 1) == RunStart(s, k) < k + 1 && WordAt(s, k) == None
  {
    var i, now' := RunStart(s, k), now[k := ToLower(s[k])];
    assert RunStart(s, k + 1) == i;
    hide RunStart, Lower, ToLower;
    StepAhead(now, bytes, k, ToLower(s[k]));
    LowerNext(s, i, k);
    assert now'[i..k + 1] == now[i..k] + [ToLower(s[k])];
  }

  lemma StepAhead(now: seq<Byte>, bytes: seq<Byte>, k: nat, c: Byte)
    requires k < |now| == |bytes| && now[k..] == bytes[k..]
    ensures now[k := c][k + 1..] == bytes[k + 1..]
  {
    assert now[k..][1..] == bytes[k..][1..];
  }

  lemma LowerNext(s: Text, i: nat, k: nat)
    requires i <= k < |s|
    ensures Lower(s[i..k + 1]) == Lower(s[i..k]) + [ToLower(s[k])]
  {
    hide ToLower;
    var l, r := Lower(s[i..k + 1]), Lower(s[i..k]) + [ToLower(s[k])];
    forall j | 0 <= j < |l|
      ensures l[j] == r[j]
    {
    }
  }

  lemma PassBoundary(now: seq<Byte>, bytes: seq<Byte>, s: Text, k: int)
    requires PassedUpTo(now, bytes, s, k) && k < |s| && now[k] == s[k] && !IsAlpha(s[k]) && RunStart(s, k) < k
    ensures var i, now' := RunStart(s, k), now[k := 0];
            && PassedUpTo(now', bytes, s, k + 1) && RunStart(s, k + 1) == k + 1
            && i < |now'| && WordAt(s, k) == Some(CString(now'[i..]))
  {
    var i, now' := RunStart(s, k), now[k := 0];
    var word := Lower(s[i..k]);
    assert now'[k + 1..] == now[k..][1..] && bytes[k + 1..] == bytes[k..][1..];
    assert now'[i..][..k - i] == now[i..k];
    forall j | 0 <= j < |word|
      ensures word[j] != 0
    {
      assert IsAlpha(s[i + j]);
    }
    CStringIs(now'[i..], word);
  }

  lemma {:induction false} CStringIs(bytes: seq<Byte>, word: Text)
    requires |word| < |bytes| && bytes[..|word|] == word && bytes[|word|] == 0
    requires forall j :: 0 <= j < |word| ==> word[j] != 0
    ensures CString(bytes) == word
  {
    if word != [] {
      assert bytes[0] == word[0];
      CStringIs(bytes[1..], word[1..]);
    }
  }

  lemma PassOther(now: seq<Byte>, bytes: seq<Byte>, s: Text, k: int)
    requires PassedUpTo(now, bytes, s, k) && k < |s| && !IsAlpha(s[k]) && RunStart(s, k) == k
    ensures PassedUpTo(now, bytes, s, k + 1) && RunStart(s, k + 1) == k + 1 && WordAt(s, k) == None
  {
  }

  const PARSER_NUM_BUCKETS := 32

  // The text of a buffer is worth a table: characters, all of them ASCII, and at
  // least one word that is followed by something.
  ghost predicate HasWords(s: Text)
  {
    Ascii(s) && exists w :: IsWord(s, w)
  }

  // The buffer must be a C string whose length is an int.
  method ParseIntoWordPositionsTable(fileContents: array?<Byte>) returns (r: Option<HashTable<WordPositions>>)
    requires fileContents != null ==>
               var s := CString(fileContents[..]);
               |s| < fileContents.Length && |s| <= MAX_INT32 && HashesApart(s)
    modifies fileContents
    ensures r.None? <==> fileContents == null || !HasWords(CString(old(fileContents[..])))
    ensures r.Some? ==>
              && var s := CString(old(fileContents[..]));
              && fresh(r.value) && fresh(r.value.Repr) && r.value.Valid()
              && r.value.table == WordTable(s, |s|) && Indexed(r.value.table, s, |s|)
              && forall key :: T.Find(r.value.table, key).Some? ==>
                   IsLowerCase(T.Find(r.value.table, key).value.value.word)
  {
    hide *;
    if fileContents == null {
      return None;
    }
    ghost var s := CString(fileContents[..]);
    HasWordsParts(s);
    var contents := ReadWord(fileContents, 0);
    assert fileContents[0..] == fileContents[..];
    if |contents| == 0 {
      return None;
    }
    var ascii := AllAscii(contents);
    if !ascii {
      return None;
    }
    BucketsValue();
    var tab := new HashTable<WordPositions>(PARSER_NUM_BUCKETS);
    NoWordTable(s);
    InsertContent(tab, fileContents, s);
    WordTableIndexed(s, |s|);
    IndexedSize(tab.table, s);
    IndexedLowerCase(tab.table, s);
    if tab.numElements == 0 {
      return None;
    }
    r := Some(tab);
  }

  method AllAscii(s: Text) returns (b: bool)
    ensures b <==> Ascii(s)
  {
    for i := 0 to |s|
      invariant Ascii(s[..i])
    {
      if s[i] > ASCII_UPPER_BOUND {
        return false;
      }
    }
    assert s[..|s|] == s;
    b := true;
  }

  lemma BucketsValue()
    ensures PARSER_NUM_BUCKETS == 32
  {
  }

  lemma HasWordsParts(s: Text)
    ensures HasWords(s) <==> Ascii(s) && exists w :: IsWord(s, w)
    ensures s == [] ==> !HasWords(s)
  {
    assert s == [] ==> forall w :: !IsWord(s, w);
  }

  lemma NothingIndexed(s: Text)
    ensures Indexed(T.EmptyTable<WordPositions>(PARSER_NUM_BUCKETS), s, 0)
  {
  }

  lemma IndexedLowerCase(t: Table<WordPositions>, s: Text)
    requires Indexed(t, s, |s|)
    ensures |t| > 0
    ensures forall key :: T.Find(t, key).Some? ==> IsLowerCase(T.Find(t, key).value.value.word)
  {
    hide T.Find, FnvHash, Starts, IsLowerCase;
    forall key | T.Find(t, key).Some?
      ensures IsLowerCase(T.Find(t, key).value.value.word)
    {
      assert Lists(T.Find(t, key).value, s, |s|);
      WordsAreLowerCase(s, T.Find(t, key).value.value.word);
    }
  }

  lemma IndexedSize(t: Table<WordPositions>, s: Text)
    requires Indexed(t, s, |s|)
    ensures T.Size(t) == 0 <==> forall w :: !IsWord(s, w)
  {
    hide T.Find, FnvHash, Starts, T.AllPairs;
    if T.Size(t) > 0 {
      var kv := T.AllPairs(t)[0];
      T.AllPairsAreFound(t, kv);
      assert Lists(kv, s, |s|);
      assert IsWord(s, kv.value.word);
    }
    forall w | IsWord(s, w)
      ensures T.Size(t) > 0
    {
      var kv := T.Find(t, FnvHash(w)).value;
      T.FoundKey(t, FnvHash(w));
      T.AllPairsAreFound(t, kv);
      assert T.AllPairs(t) != [];
    }
  }
}
