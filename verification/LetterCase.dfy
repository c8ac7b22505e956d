/**
 Upper and lower case: the tokenizer's tolower() makes words of lower-case letters, so
 the case of the letters in a file makes no difference to its index file.
 */
module LetterCase {
  import opened Common
  import opened CrawlFiles
  import opened CrawlFileTree
  import opened DiskLayout
  import opened EndToEnd
  import opened FileParser
  import opened QueryProcessor
  import opened SearchFiles

  // ----- texts that differ in the case of letters only -----

  predicate SameButCase(s: seq<Byte>, t: seq<Byte>)
  {
    |s| == |t| && forall i :: 0 <= i < |s| ==> SameLetter(s[i], t[i])
  }

  lemma SameLetters(s: Text, t: Text)
    requires SameButCase(s, t)
    ensures forall i :: 0 <= i < |s| ==> (IsAlpha(s[i]) <==> IsAlpha(t[i])) && ToLower(s[i]) == ToLower(t[i])
  {
    hide SameLetter, IsAlpha, ToLower;
    forall i | 0 <= i < |s|
      ensures (IsAlpha(s[i]) <==> IsAlpha(t[i])) && ToLower(s[i]) == ToLower(t[i])
    {
      CaseOfLetter(s[i], t[i]);
      CaseOfLetter(t[i], s[i]);
    }
  }

  lemma {:induction false} SameRuns(s: Text, t: Text, j: int)
    requires SameButCase(s, t) && 0 <= j <= |s|
    ensures RunStart(s, j) == RunStart(t, j)
  {
    SameLetters(s, t);
    hide SameButCase, IsAlpha;
    if j > 0 {
      SameRuns(s, t, j - 1);
    }
  }

  lemma SameWords(s: Text, t: Text, k: int)
    requires SameButCase(s, t) && 0 <= k < |s|
    ensures WordAt(s, k) == WordAt(t, k)
  {
    SameLetters(s, t);
    SameRuns(s, t, k);
    hide SameButCase, IsAlpha, ToLower, RunStart;
    var i := RunStart(s, k);
    var v, w := Lower(s[i..k]), Lower(t[i..k]);
    forall j | 0 <= j < k - i
      ensures v[j] == w[j]
    {
      assert s[i..k][j] == s[i + j] && t[i..k][j] == t[i + j];
    }
    assert v == w;
  }

  lemma {:induction false} SameStarts(s: Text, t: Text, word: Text, k: int)
    requires SameButCase(s, t) && 0 <= k <= |s|
    ensures |s| == |t| && Starts(s, word, k) == Starts(t, word, k)
  {
    hide *;
    SameLength(s, t);
    if k == 0 {
      NoStarts(s, word);
      NoStarts(t, word);
    } else {
      SameStarts(s, t, word, k - 1);
      SameWords(s, t, k - 1);
      SameRuns(s, t, k - 1);
      StartsNext(s, word, k - 1);
      StartsNext(t, word, k - 1);
    }
  }

  lemma NoStarts(s: Text, word: Text)
    ensures Starts(s, word, 0) == []
  {
  }

  // They have the same table of words.
  lemma {:induction false} SameTable(s: Text, t: Text, k: int)
    requires SameButCase(s, t) && 0 <= k <= |s|
    ensures WordTable(s, k) == WordTable(t, k)
  {
    hide *;
    SameLength(s, t);
    if k == 0 {
      NoWordTable(s);
      NoWordTable(t);
    } else {
      SameTable(s, t, k - 1);
      SameWords(s, t, k - 1);
      SameRuns(s, t, k - 1);
      WordTableNext(s, k - 1);
      WordTableNext(t, k - 1);
    }
  }

  lemma SameLength(s: Text, t: Text)
    requires SameButCase(s, t)
    ensures |s| == |t| && (Ascii(s) <==> Ascii(t))
  {
    forall i | 0 <= i < |s|
      ensures s[i] < 0x80 <==> t[i] < 0x80
    {
      assert SameLetter(s[i], t[i]);
    }
  }

  // ----- files -----

  // A file with the same path, whose contents differ in the case of letters only.
  predicate SameFile(f: NamedFile, g: NamedFile)
  {
    f.path == g.path && SameButCase(f.contents, g.contents)
  }

  ghost predicate SameFiles(fs: seq<NamedFile>, gs: seq<NamedFile>)
  {
    |fs| == |gs| && forall i :: 0 <= i < |fs| ==> SameFile(fs[i], gs[i])
  }

  lemma {:induction false} SameCStrings(a: seq<Byte>, b: seq<Byte>)
    requires SameButCase(a, b)
    ensures SameButCase(CString(a), CString(b))
  {
    if a != [] {
      assert SameLetter(a[0], b[0]);
      assert SameButCase(a[1..], b[1..]);
      SameCStrings(a[1..], b[1..]);
    }
  }

  lemma SameTexts(f: NamedFile, g: NamedFile)
    requires SameFile(f, g)
    ensures SameButCase(TextOf(f), TextOf(g))
  {
    hide CString;
    assert SameButCase(f.contents + [0], g.contents + [0]);
    SameCStrings(f.contents + [0], g.contents + [0]);
  }

  lemma SamePlaces(f: NamedFile, g: NamedFile, word: Text)
    requires SameFile(f, g)
    ensures Starts(TextOf(f), word, |TextOf(f)|) == Starts(TextOf(g), word, |TextOf(g)|)
    ensures IsWord(TextOf(f), word) <==> IsWord(TextOf(g), word)
  {
    hide TextOf, Starts, SameFile, SameButCase;
    SameTexts(f, g);
    SameLength(TextOf(f), TextOf(g));
    SameStarts(TextOf(f), TextOf(g), word, |TextOf(f)|);
  }

  lemma SameHasWords(f: NamedFile, g: NamedFile)
    requires SameFile(f, g)
    ensures HasWords(TextOf(f)) <==> HasWords(TextOf(g))
  {
    hide TextOf, IsWord, SameFile, SameButCase, Ascii;
    SameTexts(f, g);
    SameLength(TextOf(f), TextOf(g));
    forall word
      ensures IsWord(TextOf(f), word) <==> IsWord(TextOf(g), word)
    {
      SamePlaces(f, g, word);
    }
  }

  lemma {:induction false} SameCounts(f: NamedFile, g: NamedFile, query: seq<Text>)
    requires SameFile(f, g)
    ensures CountAll(TextOf(f), query) == CountAll(TextOf(g), query)
  {
    hide TextOf, Starts, SameFile;
    if query != [] {
      SamePlaces(f, g, Last(query));
      SameCounts(f, g, Init(query));
    }
  }

  // ----- the index file and the answers -----

  lemma SameAfterFile(c: Collection, f: NamedFile, g: NamedFile)
    requires SameFile(f, g) && c.Sized()
    ensures AfterFile(c, f.path, TextOf(f)) == AfterFile(c, g.path, TextOf(g))
  {
    assert f.path == g.path;
    hide *;
    SameTexts(f, g);
    SameHasWords(f, g);
    SameLength(TextOf(f), TextOf(g));
    SameTable(TextOf(f), TextOf(g), |TextOf(f)|);
    AfterFileValue(c, f.path, TextOf(f));
    AfterFileValue(c, g.path, TextOf(g));
  }

  lemma {:induction false} SameBuilt(fs: seq<NamedFile>, gs: seq<NamedFile>, k: int)
    requires SameFiles(fs, gs) && 0 <= k <= |fs|
    ensures |fs| == |gs| && Built(fs, k) == Built(gs, k)
  {
    hide AfterFile, TextOf, NothingYet, SameFile;
    if k > 0 {
      SameBuilt(fs, gs, k - 1);
      SameAfterFile(Built(fs, k - 1), fs[k - 1], gs[k - 1]);
    }
  }

  // The case of letters makes no difference to the index file.
  lemma SameIndexFile(fs: seq<NamedFile>, gs: seq<NamedFile>)
    requires SameFiles(fs, gs)
    ensures StorableFiles(fs) <==> StorableFiles(gs)
    ensures IndexFileOf(fs) == IndexFileOf(gs)
  {
    assert |fs| == |gs|;
    hide *;
    SameBuilt(fs, gs, |fs|);
    IndexFileValue(fs);
    IndexFileValue(gs);
  }

  lemma SameMatch(f: NamedFile, g: NamedFile, query: seq<Text>)
    requires SameFile(f, g)
    ensures OneMatch(f, query) == OneMatch(g, query)
  {
    hide TextOf, HasWords, IsWord, SameButCase, CountAll, NameOnDisk;
    SameHasWords(f, g);
    SameCounts(f, g, query);
    forall i | 0 <= i < |query|
      ensures IsWord(TextOf(f), query[i]) <==> IsWord(TextOf(g), query[i])
    {
      SamePlaces(f, g, query[i]);
    }
  }

  // Nor to the answers.
  lemma {:induction false} SameMatches(fs: seq<NamedFile>, gs: seq<NamedFile>, query: seq<Text>)
    requires SameFiles(fs, gs)
    ensures MatchingFiles(fs, query) == MatchingFiles(gs, query)
  {
    hide OneMatch, SameFile;
    if fs != [] {
      SameMatches(Init(fs), Init(gs), query);
      SameMatch(Last(fs), Last(gs), query);
    }
  }

  // Only queries in lower case find anything.
  lemma OnlyLowerCaseFound(files: seq<NamedFile>, query: seq<Text>, i: int)
    requires 0 <= i < |query| && !IsLowerCase(query[i])
    ensures MatchingFiles(files, query) == multiset{}
  {
    hide TextOf, HasWords, IsWord, IsLowerCase;
    if files != [] {
      OnlyLowerCaseFound(Init(files), query, i);
      if FileMatches(Last(files), query) {
        WordsAreLowerCase(TextOf(Last(files)), query[i]);
      }
    }
  }

  // ----- counting -----

  // The words in a text are counted by the places where they start.
  lemma {:induction false} CountIsPlaces(s: Text, word: Text)
    ensures |Starts(s, word, |s|)| == |set i | 0 <= i < |s| && StartsAt(s, word, i, |s|)|
  {
    var ps := Starts(s, word, |s|);
    StartsExact(s, word, |s|);
    StartsAscend(s, word, |s|);
    hide Starts, StartsAt;
    DistinctCount(ps);
    assert (set p | p in ps) == set i | 0 <= i < |s| && StartsAt(s, word, i, |s|);
  }

  lemma {:induction false} DistinctCount(ps: seq<int>)
    requires forall a, b :: 0 <= a < b < |ps| ==> ps[a] < ps[b]
    ensures |set p | p in ps| == |ps|
  {
    if ps != [] {
      DistinctCount(Init(ps));
      assert (set p | p in ps) == (set p | p in Init(ps)) + {Last(ps)};
      assert Last(ps) !in Init(ps);
    }
  }

  // The words of a query are counted separately.
  lemma {:induction false} CountsAdd(s: Text, query: seq<Text>, more: seq<Text>)
    ensures CountAll(s, query + more) == CountAll(s, query) + CountAll(s, more)
    ensures forall word :: CountAll(s, [word]) == |Starts(s, word, |s|)|
    decreases |more|
  {
    hide Starts;
    forall word
      ensures CountAll(s, [word]) == |Starts(s, word, |s|)|
    {
      assert Init([word]) == [];
    }
    InitConcat(query, more);
    if more != [] {
      CountsAdd(s, query, Init(more));
    }
  }

  // ----- a file that contains "The " -----

  function The(): (word: Text)
    ensures |word| == 3
  {
    Chars("the")
  }

  function CapitalThe(): (word: Text)
    ensures |word| == 3
  {
    Chars("The")
  }

  function TheText(): (s: Text)
    ensures |s| == 4
  {
    Chars("The ")
  }

  lemma LowerThe()
    ensures var s := TheText(); RunStart(s, 3) == 0 && !IsAlpha(s[3]) && Lower(s[0..3]) == The()
  {
  }

  lemma NothingBefore(w: Text)
    ensures Starts(TheText(), w, 3) == []
  {
    hide Lower;
    var s := TheText();
    assert IsAlpha(s[0]) && IsAlpha(s[1]) && IsAlpha(s[2]);
    assert Starts(s, w, 0) == [] && Starts(s, w, 1) == [] && Starts(s, w, 2) == [];
  }

  lemma TheWords(w: Text)
    ensures Starts(TheText(), w, 4) == if w == The() then [0] else []
  {
    hide Lower, RunStart, IsAlpha, TheText, The;
    LowerThe();
    NothingBefore(w);
  }

  // A text without zeros is what the parser sees of it.
  lemma WholeText(path: seq<Byte>, s: Text)
    requires forall i :: 0 <= i < |s| ==> s[i] != 0
    ensures TextOf(NamedFile(path, s)) == s
  {
    CStringIs(s + [0], s);
    hide CString;
  }

  lemma PlainThe()
    ensures Ascii(TheText()) && forall i :: 0 <= i < |TheText()| ==> TheText()[i] != 0
  {
  }

  lemma TextOfThe(path: seq<Byte>)
    ensures TextOf(NamedFile(path, TheText())) == TheText() && HasWords(TheText())
  {
    hide TextOf, Ascii, Starts, TheText, The;
    PlainThe();
    WholeText(path, TheText());
    TheWords(The());
    assert IsWord(TheText(), The());
  }

  // It is found for "the", once, and not for "The".
  lemma TheIsFound(path: seq<Byte>)
    ensures var f := NamedFile(path, TheText());
            && OneMatch(f, [The()]) == multiset{QueryResult(NameOnDisk(path), 1)}
            && OneMatch(f, [CapitalThe()]) == multiset{}
  {
    hide TextOf, HasWords, Starts, NameOnDisk, CountAll, The, CapitalThe, TheText;
    CasesDiffer();
    TextOfThe(path);
    TheWords(The());
    TheWords(CapitalThe());
    CountsAdd(TheText(), [], []);
    assert IsWord(TheText(), The());
    assert !IsWord(TheText(), [CapitalThe()][0]);
  }

  lemma CasesDiffer()
    ensures CapitalThe() != The()
  {
    assert Chars("The")[0] != Chars("the")[0];
  }
}
