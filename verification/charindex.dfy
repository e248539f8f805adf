/** The character index of data_load.py's `create_char_df`: every character
    of the HSK word list, tagged with the lowest level whose words contain it.

    The source scans levels 1 to 6. For level i it joins the words tagged i
    into one string, deletes from it every character of the strings already
    produced for lower levels (the "processed" strings), and appends the
    result. It then emits one (character, level) row per character of each
    processed string and drops duplicate rows. */
module CharIndex {
  import opened Seqs

  /** A row of the vocabulary table: a word and the level it is tagged with. */
  datatype Word = Word(hanzi: string, level: int)

  /** A row of the character table. */
  datatype Entry = Entry(hanzi: char, level: int)

  /** The levels scanned by the builder. */
  const LowestLevel: int := 1
  const HighestLevel: int := 6

  /** Some word tagged `level` contains `c`. */
  ghost predicate OccursAt(words: seq<Word>, c: char, level: int)
  {
    exists w :: w in words && w.level == level && c in w.hanzi
  }

  /** `level` is the lowest scanned level at which `c` occurs. */
  ghost predicate IsFirstLevel(words: seq<Word>, c: char, level: int)
  {
    && LowestLevel <= level <= HighestLevel
    && OccursAt(words, c, level)
    && forall j :: LowestLevel <= j < level ==> !OccursAt(words, c, j)
  }

  /** The set of characters of a string. */
  function CharsOf(s: string): (r: set<char>)
  {
    set c | c in s
  }

  /** The characters of several strings. */
  function CharsOfAll(ss: seq<string>): (r: set<char>)
  {
    if ss == [] then {} else CharsOf(ss[0]) + CharsOfAll(ss[1..])
  }

  /** The words tagged `level`, joined into one string in table order. */
  function LevelText(words: seq<Word>, level: int): (r: string)
    ensures forall c :: c in r <==> OccursAt(words, c, level)
  {
    if words == [] then ""
    else
      var rest := LevelText(words[1..], level);
      assert forall w :: w in words <==> w == words[0] || w in words[1..];
      (if words[0].level == level then words[0].hanzi else "") + rest
  }

  /** The characters of `s` not in `cs`, in order. */
  function Without(s: string, cs: set<char>): (r: string)
    ensures forall c :: c in r <==> c in s && c !in cs
  {
    if s == "" then ""
    else (if s[0] in cs then "" else [s[0]]) + Without(s[1..], cs)
  }

  lemma {:induction false} WithoutWithout(s: string, a: set<char>, b: set<char>)
    ensures Without(Without(s, a), b) == Without(s, a + b)
  {
    if s != "" {
      WithoutWithout(s[1..], a, b);
      var t := Without(s[1..], a);
      if s[0] !in a {
        assert Without(s, a) == [s[0]] + t;
        assert Without(s, a)[1..] == t;
      } else {
        assert Without(s, a) == t;
      }
    }
  }

  /** Deleting the characters of `other` from `step` one by one, each with
      a replace-all. */
  function RemoveChars(step: string, other: string): (r: string)
    decreases |other|
  {
    if other == "" then step
    else RemoveChars(Without(step, {other[0]}), other[1..])
  }

  lemma {:induction false} RemoveCharsIsWithout(step: string, other: string)
    ensures RemoveChars(step, other) == Without(step, CharsOf(other))
    decreases |other|
  {
    if other == "" {
      WithoutNothing(step);
      assert CharsOf(other) == {};
    } else {
      RemoveCharsIsWithout(Without(step, {other[0]}), other[1..]);
      WithoutWithout(step, {other[0]}, CharsOf(other[1..]));
      assert {other[0]} + CharsOf(other[1..]) == CharsOf(other);
    }
  }

  lemma {:induction false} WithoutNothing(s: string)
    ensures Without(s, {}) == s
  {
    if s != "" {
      WithoutNothing(s[1..]);
    }
  }

  /** Deleting from `step` the characters of every string in `earlier`. */
  function RemoveEarlier(step: string, earlier: seq<string>): (r: string)
    decreases |earlier|
  {
    if earlier == [] then step
    else RemoveEarlier(RemoveChars(step, earlier[0]), earlier[1..])
  }

  lemma {:induction false} RemoveEarlierIsWithout(step: string, earlier: seq<string>)
    ensures RemoveEarlier(step, earlier) == Without(step, CharsOfAll(earlier))
    decreases |earlier|
  {
    if earlier == [] {
      WithoutNothing(step);
    } else {
      RemoveCharsIsWithout(step, earlier[0]);
      RemoveEarlierIsWithout(RemoveChars(step, earlier[0]), earlier[1..]);
      WithoutWithout(step, CharsOf(earlier[0]), CharsOfAll(earlier[1..]));
    }
  }

  lemma {:induction false} CharsOfAllAppend(a: seq<string>, b: seq<string>)
    ensures CharsOfAll(a + b) == CharsOfAll(a) + CharsOfAll(b)
  {
    if a == [] {
      assert a + b == b;
    } else {
      assert (a + b)[0] == a[0];
      assert (a + b)[1..] == a[1..] + b;
      CharsOfAllAppend(a[1..], b);
    }
  }

  /** The processed strings after the loop has handled levels 1..n: the
      string for level i keeps, in order, the characters of level i's words
      that occur in none of the earlier processed strings. */
  function CharList(words: seq<Word>, n: nat): (cl: seq<string>)
    requires n <= HighestLevel
    ensures |cl| == n
  {
    if n == 0 then []
    else
      var prev := CharList(words, n - 1);
      prev + [RemoveEarlier(LevelText(words, n), prev)]
  }

  /** The characters of the raw word lists of levels 1..n. */
  function RawChars(words: seq<Word>, n: nat): (cs: set<char>)
    ensures forall c :: c in cs <==> exists i :: LowestLevel <= i <= n && OccursAt(words, c, i)
  {
    if n == 0 then {}
    else
      var prev := RawChars(words, n - 1);
      assert forall c :: c in CharsOf(LevelText(words, n)) <==> OccursAt(words, c, n);
      prev + CharsOf(LevelText(words, n))
  }

  lemma CharsOfWithout(s: string, cs: set<char>)
    ensures CharsOf(Without(s, cs)) == CharsOf(s) - cs
  {
  }

  /** Loop invariant of the builder: after level n, the processed strings
      hold exactly the characters of the raw word lists of levels 1..n, so
      deleting the characters of earlier processed strings is the same as
      deleting the characters of earlier raw word lists. */
  lemma {:induction false} CharListInvariant(words: seq<Word>, n: nat)
    requires n <= HighestLevel
    ensures CharsOfAll(CharList(words, n)) == RawChars(words, n)
    ensures forall i :: 1 <= i <= n ==>
      CharList(words, n)[i - 1] == Without(LevelText(words, i), RawChars(words, i - 1))
  {
    if n > 0 {
      CharListInvariant(words, n - 1);
      var prev := CharList(words, n - 1);
      var text := LevelText(words, n);
      var last := RemoveEarlier(text, prev);
      var cl := CharList(words, n);
      assert cl == prev + [last];
      RemoveEarlierIsWithout(text, prev);
      assert last == Without(text, RawChars(words, n - 1));
      CharsOfAllAppend(prev, [last]);
      assert CharsOfAll([last]) == CharsOf(last);
      CharsOfWithout(text, RawChars(words, n - 1));
      forall i | 1 <= i <= n
        ensures cl[i - 1] == Without(LevelText(words, i), RawChars(words, i - 1))
      {
        if i < n {
          assert cl[i - 1] == prev[i - 1];
        }
      }
    }
  }

  /** The processed strings of different levels share no character. */
  lemma CharListDisjoint(words: seq<Word>, n: nat, i: nat, j: nat, c: char)
    requires n <= HighestLevel && i < j < n
    requires c in CharList(words, n)[i]
    ensures c !in CharList(words, n)[j]
  {
    CharListInvariant(words, n);
    assert CharList(words, n)[i] == Without(LevelText(words, i + 1), RawChars(words, i));
    assert OccursAt(words, c, i + 1);
    assert c in RawChars(words, j);
    assert CharList(words, n)[j] == Without(LevelText(words, j + 1), RawChars(words, j));
  }

  /** One row per character of `s`, all tagged `level`. */
  function Tag(s: string, level: int): (r: seq<Entry>)
    ensures |r| == |s|
    ensures forall k :: 0 <= k < |s| ==> r[k] == Entry(s[k], level)
  {
    seq(|s|, k requires 0 <= k < |s| => Entry(s[k], level))
  }

  /** The rows of all processed strings, the string at position i tagged
      with level i + 1, in order. */
  function Stack(cl: seq<string>): (r: seq<Entry>)
    ensures forall e :: e in r <==> 1 <= e.level <= |cl| && e.hanzi in cl[e.level - 1]
  {
    if cl == [] then []
    else
      var prefix := cl[..|cl| - 1];
      var rows := Stack(prefix) + Tag(cl[|cl| - 1], |cl|);
      assert forall e :: e in Tag(cl[|cl| - 1], |cl|) <==> e.level == |cl| && e.hanzi in cl[|cl| - 1];
      assert forall i :: 0 <= i < |prefix| ==> prefix[i] == cl[i];
      rows
  }

  /** Drops repeated rows, keeping the first occurrence of each. */
  function DropDuplicates(es: seq<Entry>): (r: seq<Entry>)
    ensures forall e :: e in r <==> e in es
    ensures forall j, k :: 0 <= j < k < |r| ==> r[j] != r[k]
  {
    Distinct(es, {})
  }

  /** The character table. */
  function CreateCharDf(words: seq<Word>): (r: seq<Entry>)
  {
    DropDuplicates(Stack(CharList(words, HighestLevel)))
  }

  /** Each processed string with repeated characters dropped. */
  function DedupEach(cl: seq<string>): (d: seq<string>)
    ensures |d| == |cl|
  {
    seq(|cl|, i requires 0 <= i < |cl| => Distinct(cl[i], {}))
  }

  /** The rows a set of characters gives at one level. */
  function TagSet(cs: set<char>, level: int): (r: set<Entry>)
    ensures forall e :: e in r <==> e.hanzi in cs && e.level == level
  {
    set c | c in cs :: Entry(c, level)
  }

  lemma TagSetAdd(cs: set<char>, c: char, level: int)
    ensures TagSet(cs + {c}, level) == TagSet(cs, level) + {Entry(c, level)}
  {
  }

  lemma TagCons(c: char, s: string, level: int)
    ensures Tag([c] + s, level) == [Entry(c, level)] + Tag(s, level)
  {
  }

  lemma {:induction false} TagDistinct(s: string, level: int, seen: set<char>)
    ensures Distinct(Tag(s, level), TagSet(seen, level)) == Tag(Distinct(s, seen), level)
  {
    var tagged := TagSet(seen, level);
    if s != "" {
      var t := Tag(s, level);
      assert t == [Entry(s[0], level)] + Tag(s[1..], level) by {
        assert s == [s[0]] + s[1..];
        TagCons(s[0], s[1..], level);
      }
      assert t[1..] == Tag(s[1..], level);
      if s[0] in seen {
        TagDistinct(s[1..], level, seen);
        assert Distinct(t, tagged) == Distinct(t[1..], tagged);
        assert Distinct(s, seen) == Distinct(s[1..], seen);
      } else {
        TagDistinct(s[1..], level, seen + {s[0]});
        TagSetAdd(seen, s[0], level);
        var rest := Distinct(s[1..], seen + {s[0]});
        assert Distinct(t, tagged) == [t[0]] + Distinct(t[1..], tagged + {t[0]});
        assert Distinct(s, seen) == [s[0]] + rest;
        TagCons(s[0], rest, level);
      }
    } else {
      assert Tag(s, level) == [];
    }
  }

  /** Dropping duplicate rows of the stacked table is the same as dropping
      repeated characters within each processed string: rows of different
      levels are never equal. */
  lemma {:induction false} DropDuplicatesStack(cl: seq<string>)
    ensures DropDuplicates(Stack(cl)) == Stack(DedupEach(cl))
  {
    if cl != [] {
      var n := |cl|;
      var prefix := cl[..n - 1];
      var last := cl[n - 1];
      var below := Stack(prefix);
      var top := Tag(last, n);
      assert Stack(cl) == below + top;
      DistinctAppend(below, top, {});
      var belowSet := {} + set e | e in below;
      DistinctSeenIrrelevant(top, belowSet, TagSet({}, n));
      TagDistinct(last, n, {});
      DropDuplicatesStack(prefix);
      DedupEachSnoc(cl);
    }
  }

  lemma DedupEachSnoc(cl: seq<string>)
    requires cl != []
    ensures Stack(DedupEach(cl)) == Stack(DedupEach(cl[..|cl| - 1])) + Tag(Distinct(cl[|cl| - 1], {}), |cl|)
  {
    var d := DedupEach(cl);
    assert d[..|cl| - 1] == DedupEach(cl[..|cl| - 1]);
  }

  lemma {:induction false} StackSorted(cl: seq<string>)
    ensures forall j, k :: 0 <= j <= k < |Stack(cl)| ==> Stack(cl)[j].level <= Stack(cl)[k].level
  {
    if cl != [] {
      var n := |cl|;
      var below := Stack(cl[..n - 1]);
      var top := Tag(cl[n - 1], n);
      StackSorted(cl[..n - 1]);
      assert Stack(cl) == below + top;
      forall j, k | 0 <= j <= k < |Stack(cl)|
        ensures Stack(cl)[j].level <= Stack(cl)[k].level
      {
        if j < |below| {
          assert below[j] in below;
          if k >= |below| {
            assert Stack(cl)[k] == top[k - |below|];
          }
        }
      }
    }
  }

  /** No character appears twice in `s`. */
  ghost predicate NoRepeats(s: string)
  {
    forall j, k :: 0 <= j < k < |s| ==> s[j] != s[k]
  }

  /** No character appears in two of the strings. */
  ghost predicate PairwiseDisjoint(cl: seq<string>)
  {
    forall i, j, c :: 0 <= i < j < |cl| && c in cl[i] ==> c !in cl[j]
  }

  /** Every row of the stack comes from the string of its own level. */
  lemma StackRow(cl: seq<string>, j: int)
    requires 0 <= j < |Stack(cl)|
    ensures 1 <= Stack(cl)[j].level <= |cl| && Stack(cl)[j].hanzi in cl[Stack(cl)[j].level - 1]
  {
    assert Stack(cl)[j] in Stack(cl);
  }

  /** No character is listed in two rows. */
  ghost predicate UniqueHanzi(es: seq<Entry>)
  {
    forall j, k :: 0 <= j < k < |es| ==> es[j].hanzi != es[k].hanzi
  }

  lemma UniqueHanziAppend(a: seq<Entry>, b: seq<Entry>)
    requires UniqueHanzi(a) && UniqueHanzi(b)
    requires forall j, k :: 0 <= j < |a| && 0 <= k < |b| ==> a[j].hanzi != b[k].hanzi
    ensures UniqueHanzi(a + b)
  {
    var ab := a + b;
    forall j, k | 0 <= j < k < |ab|
      ensures ab[j].hanzi != ab[k].hanzi
    {
      if k < |a| {
        assert ab[j] == a[j] && ab[k] == a[k];
      } else if j < |a| {
        assert ab[j] == a[j] && ab[k] == b[k - |a|];
      } else {
        assert ab[j] == b[j - |a|] && ab[k] == b[k - |a|];
      }
    }
  }

  lemma {:induction false} StackUniqueHanzi(cl: seq<string>)
    requires forall i :: 0 <= i < |cl| ==> NoRepeats(cl[i])
    requires PairwiseDisjoint(cl)
    ensures UniqueHanzi(Stack(cl))
  {
    if cl != [] {
      var n := |cl|;
      var prefix := cl[..n - 1];
      var below := Stack(prefix);
      var top := Tag(cl[n - 1], n);
      assert forall i :: 0 <= i < |prefix| ==> prefix[i] == cl[i];
      assert PairwiseDisjoint(prefix);
      StackUniqueHanzi(prefix);
      assert NoRepeats(cl[n - 1]);
      assert UniqueHanzi(top);
      forall j, k | 0 <= j < |below| && 0 <= k < |top|
        ensures below[j].hanzi != top[k].hanzi
      {
        StackRow(prefix, j);
        assert below[j].hanzi in cl[below[j].level - 1];
        assert top[k].hanzi in cl[n - 1];
      }
      UniqueHanziAppend(below, top);
    }
  }

  /** Every character that occurs at some scanned level has a lowest one. */
  lemma {:induction false} HasFirstLevel(words: seq<Word>, c: char, i: int)
    requires LowestLevel <= i <= HighestLevel && OccursAt(words, c, i)
    ensures exists j :: IsFirstLevel(words, c, j)
    decreases i
  {
    if c in RawChars(words, i - 1) {
      var j :| LowestLevel <= j <= i - 1 && OccursAt(words, c, j);
      HasFirstLevel(words, c, j);
    } else {
      assert IsFirstLevel(words, c, i);
    }
  }

  /** The characters listed in a character table. */
  ghost function HanziOf(es: seq<Entry>): (r: set<char>)
  {
    set e | e in es :: e.hanzi
  }

  /** `c` occurs in some word tagged with a scanned level. */
  ghost predicate OccursScanned(words: seq<Word>, c: char)
  {
    exists i :: LowestLevel <= i <= HighestLevel && OccursAt(words, c, i)
  }

  /** The processed string of level i holds exactly the characters whose
      lowest level is i. */
  lemma ProcessedMembership(words: seq<Word>, i: int, c: char)
    requires LowestLevel <= i <= HighestLevel
    ensures c in CharList(words, HighestLevel)[i - 1] <==> IsFirstLevel(words, c, i)
  {
    CharListInvariant(words, HighestLevel);
    var s := CharList(words, HighestLevel)[i - 1];
    assert s == Without(LevelText(words, i), RawChars(words, i - 1));
  }

  /** The de-duplicated processed strings: each free of repeats, pairwise
      disjoint, and with the characters of the processed strings. */
  lemma DedupedCharList(words: seq<Word>)
    ensures var cl := CharList(words, HighestLevel); var d := DedupEach(cl);
      && (forall i, c :: 0 <= i < |d| ==> (c in d[i] <==> c in cl[i]))
      && (forall i :: 0 <= i < |d| ==> NoRepeats(d[i]))
      && PairwiseDisjoint(d)
  {
    var cl := CharList(words, HighestLevel);
    var d := DedupEach(cl);
    forall i | 0 <= i < |d|
      ensures NoRepeats(d[i])
    {
      assert d[i] == Distinct(cl[i], {});
    }
    forall i, j, c | 0 <= i < j < |d| && c in d[i]
      ensures c !in d[j]
    {
      CharListDisjoint(words, HighestLevel, i, j, c);
    }
  }

  /** The character table holds each character at most once, in ascending
      order of level. */
  lemma CreateCharDfUniqueSorted(words: seq<Word>)
    ensures var r := CreateCharDf(words);
      && (forall j, k :: 0 <= j < k < |r| ==> r[j].hanzi != r[k].hanzi)
      && (forall j, k :: 0 <= j <= k < |r| ==> r[j].level <= r[k].level)
  {
    var d := DedupEach(CharList(words, HighestLevel));
    DropDuplicatesStack(CharList(words, HighestLevel));
    assert CreateCharDf(words) == Stack(d);
    DedupedCharList(words);
    StackUniqueHanzi(d);
    StackSorted(d);
  }

  /** A row (c, i) is in the character table exactly when i is the lowest
      level, within 1..6, whose words contain c (first seen wins). */
  lemma CreateCharDfFirstLevel(words: seq<Word>, e: Entry)
    ensures e in CreateCharDf(words) <==> IsFirstLevel(words, e.hanzi, e.level)
  {
    var cl := CharList(words, HighestLevel);
    var d := DedupEach(cl);
    DropDuplicatesStack(cl);
    assert CreateCharDf(words) == Stack(d);
    DedupedCharList(words);
    if LowestLevel <= e.level <= HighestLevel {
      ProcessedMembership(words, e.level, e.hanzi);
      assert e.hanzi in d[e.level - 1] <==> e.hanzi in cl[e.level - 1];
    }
  }

  /** A character is in the table exactly when it occurs in a word tagged
      with one of the levels 1..6. */
  lemma CreateCharDfCovers(words: seq<Word>, c: char)
    ensures c in HanziOf(CreateCharDf(words)) <==> OccursScanned(words, c)
  {
    var r := CreateCharDf(words);
    if OccursScanned(words, c) {
      var i :| LowestLevel <= i <= HighestLevel && OccursAt(words, c, i);
      HasFirstLevel(words, c, i);
      var j :| IsFirstLevel(words, c, j);
      CreateCharDfFirstLevel(words, Entry(c, j));
      assert Entry(c, j) in r;
    }
    if c in HanziOf(r) {
      var e :| e in r && e.hanzi == c;
      CreateCharDfFirstLevel(words, e);
    }
  }

  /** Within one level, the table lists the characters of that level's
      processed string once each, in order of first appearance. */
  lemma CreateCharDfPerLevel(words: seq<Word>)
    ensures CreateCharDf(words) == Stack(DedupEach(CharList(words, HighestLevel)))
  {
    DropDuplicatesStack(CharList(words, HighestLevel));
  }

  lemma {:induction false} LevelTextIgnores(words: seq<Word>, w: Word, level: int)
    requires w.level != level
    ensures LevelText(words + [w], level) == LevelText(words, level)
  {
    if words == [] {
      assert LevelText([w], level) == "" + LevelText([], level);
    } else {
      assert (words + [w])[1..] == words[1..] + [w];
      LevelTextIgnores(words[1..], w, level);
    }
  }

  lemma {:induction false} CharListIgnores(words: seq<Word>, w: Word, n: nat)
    requires n <= HighestLevel
    requires !(LowestLevel <= w.level <= HighestLevel)
    ensures CharList(words + [w], n) == CharList(words, n)
  {
    if n > 0 {
      CharListIgnores(words, w, n - 1);
      LevelTextIgnores(words, w, n);
    }
  }

  /** A word tagged with a level outside 1..6 contributes nothing. */
  lemma CreateCharDfIgnoresOtherLevels(words: seq<Word>, w: Word)
    requires !(LowestLevel <= w.level <= HighestLevel)
    ensures CreateCharDf(words + [w]) == CreateCharDf(words)
  {
    CharListIgnores(words, w, HighestLevel);
  }

  /** Row `k` is the first row of `es` for its character. */
  predicate FirstRowAt(es: seq<Entry>, k: int)
  {
    0 <= k < |es| && forall j :: 0 <= j < k ==> es[j].hanzi != es[k].hanzi
  }

  /** The lookup table over the character table, indexed by character
      (a character listed twice keeps its first row). */
  function Index(es: seq<Entry>): (m: map<char, int>)
    ensures forall c :: c in m <==> exists e :: e in es && e.hanzi == c
    ensures forall k :: FirstRowAt(es, k) ==> es[k].hanzi in m && m[es[k].hanzi] == es[k].level
  {
    if es == [] then map[]
    else
      var rest := Index(es[1..]);
      var m := rest[es[0].hanzi := es[0].level];
      assert forall e :: e in es <==> e == es[0] || e in es[1..];
      forall k | FirstRowAt(es, k)
        ensures es[k].hanzi in m && m[es[k].hanzi] == es[k].level
      {
        if k > 0 {
          assert es[k] == es[1..][k - 1];
          assert FirstRowAt(es[1..], k - 1);
        }
      }
      m
  }
}
