/** The classifier of hsk_tools.py's `hskInterpreter`: the level of one
    character, of a span (word or sentence), of a column of spans, and the
    word-level count of a column against the vocabulary table.

    The interpreter's tables are loaded from disk in the source; here the
    character index (`map<char, int>`) and the vocabulary table
    (`seq<Word>`) are passed explicitly. */
module HskInterpreter {
  import opened Levels
  import opened TextNormalizer
  import opened CharIndex

  /** The level of one character: the stored level, or `Unknown` when the
      character is not in the index (the source returns `None`). */
  function CharLvl(index: map<char, int>, c: char): (r: Classification)
    ensures r != Empty
  {
    if c in index then Level(index[c]) else Unknown
  }

  /** Looking a character up in the index built from the word list gives
      the lowest level whose words contain it, and `Unknown` exactly when no
      word tagged 1..6 contains it. */
  lemma CharLvlFirstSeen(words: seq<Word>, c: char)
    ensures forall i :: CharLvl(Index(CreateCharDf(words)), c) == Level(i) <==> IsFirstLevel(words, c, i)
    ensures CharLvl(Index(CreateCharDf(words)), c) == Unknown <==> !OccursScanned(words, c)
  {
    var r := CreateCharDf(words);
    var m := Index(r);
    CreateCharDfUniqueSorted(words);
    CreateCharDfCovers(words, c);
    if c in m {
      var e :| e in r && e.hanzi == c;
      var k :| 0 <= k < |r| && r[k] == e;
      assert m[c] == e.level;
      CreateCharDfFirstLevel(words, e);
      forall i | IsFirstLevel(words, c, i)
        ensures i == e.level
      {
      }
    } else {
      forall i | IsFirstLevel(words, c, i)
        ensures false
      {
        assert OccursScanned(words, c);
      }
    }
  }

  /** The maximum of the per-character levels of an already-normalised
      span, built left to right with `Join`. */
  function SpanLevel(index: map<char, int>, t: string): (r: Classification)
    ensures r == Empty <==> t == ""
    ensures r == Unknown <==> exists k :: 0 <= k < |t| && t[k] !in index
    ensures r.Level? ==> forall k :: 0 <= k < |t| ==> t[k] in index && index[t[k]] <= r.n
    ensures r.Level? ==> exists k :: 0 <= k < |t| && t[k] in index && index[t[k]] == r.n
  {
    if t == "" then Empty
    else
      var init := t[..|t| - 1];
      assert forall k :: 0 <= k < |init| ==> init[k] == t[k];
      Join(SpanLevel(index, init), CharLvl(index, t[|t| - 1]))
  }

  /** The level of a sentence: normalise it, then take the maximum level of
      its remaining characters. */
  function SentenceLvl(index: map<char, int>, isAlnum: char -> bool, s: string): (r: Classification)
    ensures r == Empty <==> forall c :: c in s ==> !(isAlnum(c) && !IsAsciiLetter(c))
    ensures r == Unknown <==> exists c :: c in s && isAlnum(c) && !IsAsciiLetter(c) && c !in index
    ensures r.Level? ==> forall c :: c in s && isAlnum(c) && !IsAsciiLetter(c) ==> c in index && index[c] <= r.n
    ensures r.Level? ==> exists c :: c in s && isAlnum(c) && !IsAsciiLetter(c) && c in index && index[c] == r.n
  {
    var t := Normalize(isAlnum, s);
    assert forall c :: c in t <==> exists k :: 0 <= k < |t| && t[k] == c;
    SpanLevel(index, t)
  }

  /** A sentence's level is `n` when every eligible character is indexed
      at `n` or below and one of them, at position `w`, is indexed at `n`. */
  lemma SentenceLvlIsLevel(index: map<char, int>, isAlnum: char -> bool, s: string, n: int, w: int)
    requires forall k :: 0 <= k < |s| && isAlnum(s[k]) && !IsAsciiLetter(s[k]) ==> s[k] in index && index[s[k]] <= n
    requires 0 <= w < |s| && isAlnum(s[w]) && !IsAsciiLetter(s[w]) && s[w] in index && index[s[w]] == n
    ensures SentenceLvl(index, isAlnum, s) == Level(n)
  {
    var r := SentenceLvl(index, isAlnum, s);
    var top := s[w];
    assert top in s;
    assert r != Empty;
    assert r != Unknown by {
      forall c | c in s && isAlnum(c) && !IsAsciiLetter(c)
        ensures c in index
      {
        var k :| 0 <= k < |s| && s[k] == c;
      }
    }
    assert n <= r.n;
    var c :| c in s && isAlnum(c) && !IsAsciiLetter(c) && c in index && index[c] == r.n;
    var k :| 0 <= k < |s| && s[k] == c;
    assert r.n <= n;
  }

  /** Join is associative, so a span's level can be built from its parts. */
  lemma JoinAssociative(a: Classification, b: Classification, c: Classification)
    ensures Join(Join(a, b), c) == Join(a, Join(b, c))
  {
  }

  /** The level of a concatenation joins the levels of its parts. */
  lemma {:induction false} SpanLevelAppend(index: map<char, int>, t: string, u: string)
    ensures SpanLevel(index, t + u) == Join(SpanLevel(index, t), SpanLevel(index, u))
    decreases |u|
  {
    if u == "" {
      assert t + u == t;
    } else {
      var init := u[..|u| - 1];
      var last := u[|u| - 1];
      assert (t + u)[..|t + u| - 1] == t + init;
      assert (t + u)[|t + u| - 1] == last;
      SpanLevelAppend(index, t, init);
      JoinAssociative(SpanLevel(index, t), SpanLevel(index, init), CharLvl(index, last));
    }
  }

  /** Appending text to a sentence never lowers its level. */
  lemma SentenceLvlAppendNeverLowers(index: map<char, int>, isAlnum: char -> bool, s: string, x: string)
    ensures Le(SentenceLvl(index, isAlnum, s), SentenceLvl(index, isAlnum, s + x))
  {
    NormalizeAppend(isAlnum, s, x);
    SpanLevelAppend(index, Normalize(isAlnum, s), Normalize(isAlnum, x));
  }

  /** Inserting text with no alphanumeric non-Latin character (punctuation,
      whitespace, Latin words) anywhere in a sentence leaves its level
      unchanged. */
  lemma SentenceLvlIgnoresNoise(index: map<char, int>, isAlnum: char -> bool, a: string, noise: string, b: string)
    requires forall k :: 0 <= k < |noise| ==> !isAlnum(noise[k]) || IsAsciiLetter(noise[k])
    ensures SentenceLvl(index, isAlnum, a + noise + b) == SentenceLvl(index, isAlnum, a + b)
  {
    NormalizeAppend(isAlnum, a + noise, b);
    NormalizeAppend(isAlnum, a, noise);
    NormalizeAppend(isAlnum, a, b);
    assert Normalize(isAlnum, noise) == "";
    assert Normalize(isAlnum, a) + Normalize(isAlnum, noise) == Normalize(isAlnum, a);
  }

  /** The level of every span of a column, position by position. */
  method ColumnLvl(index: map<char, int>, isAlnum: char -> bool, column: seq<string>)
    returns (levels: seq<Classification>)
    ensures |levels| == |column|
    ensures forall i :: 0 <= i < |column| ==> levels[i] == SentenceLvl(index, isAlnum, column[i])
  {
    levels := [];
    var i := 0;
    while i < |column|
      invariant 0 <= i <= |column|
      invariant |levels| == i
      invariant forall k :: 0 <= k < i ==> levels[k] == SentenceLvl(index, isAlnum, column[k])
    {
      levels := levels + [SentenceLvl(index, isAlnum, column[i])];
      i := i + 1;
    }
  }

  /** A key of the count: a vocabulary level, or "Not in HSK". */
  datatype CountKey = InHsk(level: int) | NotInHsk

  /** One key per vocabulary row spelled exactly `w`, in table order. */
  function VocabLevels(vocab: seq<Word>, w: string): (r: seq<CountKey>)
    ensures forall k :: k in r <==> exists v :: v in vocab && v.hanzi == w && k == InHsk(v.level)
  {
    if vocab == [] then []
    else
      assert forall v :: v in vocab <==> v == vocab[0] || v in vocab[1..];
      (if vocab[0].hanzi == w then [InHsk(vocab[0].level)] else []) + VocabLevels(vocab[1..], w)
  }

  /** The rows a left join of the single word `w` with the vocabulary
      produces, with a missing level filled in as "Not in HSK". */
  function MatchKeys(vocab: seq<Word>, w: string): (r: seq<CountKey>)
    ensures |r| >= 1
    ensures NotInHsk in r <==> !InVocab(vocab, w)
    ensures !InVocab(vocab, w) ==> r == [NotInHsk]
    ensures forall v :: v in vocab && v.hanzi == w ==> InHsk(v.level) in r
    ensures forall l :: InHsk(l) in r ==> exists v :: v in vocab && v.hanzi == w && v.level == l
  {
    var m := VocabLevels(vocab, w);
    assert forall v :: v in vocab && v.hanzi == w ==> InHsk(v.level) in m;
    assert m != [] ==> m[0] in m;
    if m == [] then
      [NotInHsk]
    else
      assert m[0] in m;
      m
  }

  /** The level column of the left join of the input column with the
      vocabulary table. */
  function JoinedKeys(vocab: seq<Word>, column: seq<string>): (r: seq<CountKey>)
    ensures |r| >= |column|
  {
    if column == [] then []
    else MatchKeys(vocab, column[0]) + JoinedKeys(vocab, column[1..])
  }

  /** For each key present in `keys`, the number of times it occurs. */
  function ValueCounts(keys: seq<CountKey>): (r: map<CountKey, nat>)
    ensures forall k :: k in r <==> k in keys
    ensures forall k :: k in r ==> r[k] == multiset(keys)[k] && r[k] > 0
  {
    var ms := multiset(keys);
    map k | k in ms :: ms[k]
  }

  /** The vocabulary has a row spelled exactly `w`. */
  ghost predicate InVocab(vocab: seq<Word>, w: string)
  {
    exists v :: v in vocab && v.hanzi == w
  }

  /** Counts the words of the column by their vocabulary level, by whole
      word match; a word with no match counts as "Not in HSK". */
  function CountHsk(vocab: seq<Word>, column: seq<string>): (r: map<CountKey, nat>)
    ensures forall k :: k in r ==> r[k] > 0
    ensures forall i :: 0 <= i < |column| && !InVocab(vocab, column[i]) ==> NotInHsk in r
    ensures forall i, v :: 0 <= i < |column| && v in vocab && v.hanzi == column[i] ==> InHsk(v.level) in r
    ensures NotInHsk in r ==> exists i :: 0 <= i < |column| && !InVocab(vocab, column[i])
    ensures forall l :: InHsk(l) in r ==>
      exists i, v :: 0 <= i < |column| && v in vocab && v.hanzi == column[i] && v.level == l
  {
    JoinedKeysMembers(vocab, column);
    forall l | InHsk(l) in JoinedKeys(vocab, column)
      ensures exists i, v :: 0 <= i < |column| && v in vocab && v.hanzi == column[i] && v.level == l
    {
      JoinedKeysLevels(vocab, column, l);
    }
    ValueCounts(JoinedKeys(vocab, column))
  }

  lemma {:induction false} JoinedKeysMembers(vocab: seq<Word>, column: seq<string>)
    ensures forall i :: 0 <= i < |column| && !InVocab(vocab, column[i]) ==> NotInHsk in JoinedKeys(vocab, column)
    ensures forall i, v :: 0 <= i < |column| && v in vocab && v.hanzi == column[i] ==> InHsk(v.level) in JoinedKeys(vocab, column)
    ensures NotInHsk in JoinedKeys(vocab, column) ==> exists i :: 0 <= i < |column| && !InVocab(vocab, column[i])
  {
    if column != [] {
      JoinedKeysMembers(vocab, column[1..]);
      var head := MatchKeys(vocab, column[0]);
      var rest := JoinedKeys(vocab, column[1..]);
      assert JoinedKeys(vocab, column) == head + rest;
      assert forall i :: 1 <= i < |column| ==> column[i] == column[1..][i - 1];
      if NotInHsk in head {
        assert !InVocab(vocab, column[0]);
      }
      if NotInHsk in rest {
        var i :| 0 <= i < |column[1..]| && !InVocab(vocab, column[1..][i]);
        assert !InVocab(vocab, column[i + 1]);
      }
    }
  }

  /** Every level key of the joined column comes from a vocabulary row
      spelled like some input word. */
  lemma {:induction false} JoinedKeysLevels(vocab: seq<Word>, column: seq<string>, l: int)
    requires InHsk(l) in JoinedKeys(vocab, column)
    ensures exists i, v :: 0 <= i < |column| && v in vocab && v.hanzi == column[i] && v.level == l
  {
    var head := MatchKeys(vocab, column[0]);
    var rest := JoinedKeys(vocab, column[1..]);
    assert JoinedKeys(vocab, column) == head + rest;
    if InHsk(l) in head {
      var v :| v in vocab && v.hanzi == column[0] && v.level == l;
    } else {
      JoinedKeysLevels(vocab, column[1..], l);
      var i, v :| 0 <= i < |column[1..]| && v in vocab && v.hanzi == column[1..][i] && v.level == l;
      assert v.hanzi == column[i + 1];
    }
  }

  /** The key a single word is counted under when vocabulary words are
      unique: its level, or "Not in HSK". */
  function WordKey(vocab: seq<Word>, w: string): (k: CountKey)
    ensures k == NotInHsk <==> !InVocab(vocab, w)
    ensures k.InHsk? ==> exists v :: v in vocab && v.hanzi == w && v.level == k.level
  {
    if vocab == [] then NotInHsk
    else if vocab[0].hanzi == w then InHsk(vocab[0].level)
    else
      assert forall v :: v in vocab <==> v == vocab[0] || v in vocab[1..];
      WordKey(vocab[1..], w)
  }

  /** No two vocabulary rows spell the same word. */
  ghost predicate UniqueWords(vocab: seq<Word>)
  {
    forall j, k :: 0 <= j < k < |vocab| ==> vocab[j].hanzi != vocab[k].hanzi
  }

  /** With unique vocabulary words, a word of the table is counted under
      its own row's level. */
  lemma WordKeyRow(vocab: seq<Word>, j: int)
    requires UniqueWords(vocab)
    requires 0 <= j < |vocab|
    ensures WordKey(vocab, vocab[j].hanzi) == InHsk(vocab[j].level)
  {
    var k := WordKey(vocab, vocab[j].hanzi);
    assert vocab[j] in vocab;
    var v :| v in vocab && v.hanzi == vocab[j].hanzi && v.level == k.level;
    var i :| 0 <= i < |vocab| && vocab[i] == v;
    assert i == j;
  }

  lemma {:induction false} UniqueMatchKeys(vocab: seq<Word>, w: string)
    requires UniqueWords(vocab)
    ensures MatchKeys(vocab, w) == [WordKey(vocab, w)]
  {
    if vocab != [] {
      assert UniqueWords(vocab[1..]) by {
        forall j, k | 0 <= j < k < |vocab[1..]|
          ensures vocab[1..][j].hanzi != vocab[1..][k].hanzi
        {
          assert vocab[1..][j] == vocab[j + 1] && vocab[1..][k] == vocab[k + 1];
        }
      }
      UniqueMatchKeys(vocab[1..], w);
      if vocab[0].hanzi == w {
        assert !InVocab(vocab[1..], w);
        var rest := VocabLevels(vocab[1..], w);
        assert VocabLevels(vocab, w) == [InHsk(vocab[0].level)] + rest;
      } else {
        assert VocabLevels(vocab, w) == VocabLevels(vocab[1..], w);
      }
    }
  }

  /** With unique vocabulary words, the joined level column has exactly one
      key per input word, so the counts add up to the input length and each
      word is counted under its own level or "Not in HSK". */
  lemma {:induction false} CountHskUnique(vocab: seq<Word>, column: seq<string>)
    requires UniqueWords(vocab)
    ensures JoinedKeys(vocab, column) == seq(|column|, i requires 0 <= i < |column| => WordKey(vocab, column[i]))
    ensures |multiset(JoinedKeys(vocab, column))| == |column|
    ensures forall k :: k in CountHsk(vocab, column) ==>
      CountHsk(vocab, column)[k] == multiset(seq(|column|, i requires 0 <= i < |column| => WordKey(vocab, column[i])))[k]
  {
    if column != [] {
      CountHskUnique(vocab, column[1..]);
      UniqueMatchKeys(vocab, column[0]);
    }
  }
}
