/** The repository's test scenarios (unit_tests.py), restated over a small
    toy character index and vocabulary chosen to agree with the levels the
    tests expect from the real HSK data. */
module Scenarios {
  import opened Seqs
  import opened Levels
  import opened TextNormalizer
  import opened CharIndex
  import opened HskInterpreter
  import opened LevelFilter

  /** A stand-in for `str.isalnum` that covers the examples: ASCII digits
      and letters, and the CJK unified ideographs. Full-width punctuation,
      ASCII punctuation and spaces are not alphanumeric. */
  predicate ToyAlnum(c: char)
  {
    ('0' <= c <= '9') || IsAsciiLetter(c) || ('\U{4E00}' <= c <= '\U{9FFF}')
  }

  /** Toy character indexes, one per scenario, holding the levels the
      tests expect from the real HSK table for the characters they use. */
  const LookupIndex: map<char, int> :=
    map['话' := 1, '给' := 2, '干' := 3, '广' := 4, '抓' := 5, '颇' := 6]

  const SentenceIndex: map<char, int> :=
    map[
      '你' := 1, '今' := 1, '天' := 1, '怎' := 1, '么' := 1, '样' := 1,
      '阿' := 3, '姨' := 3, '帮' := 2, '我' := 1, '把' := 3,
      '抽' := 4, '烟' := 4, '吗' := 1
    ]

  /** Character lookups (unit_tests.py:8-13), plus a character the index
      does not hold. */
  lemma CharLvlScenario()
    ensures CharLvl(LookupIndex, '话') == Level(1)
    ensures CharLvl(LookupIndex, '给') == Level(2)
    ensures CharLvl(LookupIndex, '干') == Level(3)
    ensures CharLvl(LookupIndex, '广') == Level(4)
    ensures CharLvl(LookupIndex, '抓') == Level(5)
    ensures CharLvl(LookupIndex, '颇') == Level(6)
    ensures CharLvl(LookupIndex, '龟') == Unknown
  {
  }

  /** A trailing ASCII question mark is ignored (unit_tests.py:15). */
  lemma SentenceLvlQuestion()
    ensures SentenceLvl(SentenceIndex, ToyAlnum, "你今天怎么样?") == Level(1)
  {
    SentenceLvlIsLevel(SentenceIndex, ToyAlnum, "你今天怎么样?", 1, 0);
  }

  /** Full-width punctuation and a space are ignored (unit_tests.py:16). */
  lemma SentenceLvlFullWidth()
    ensures SentenceLvl(SentenceIndex, ToyAlnum, "阿姨， 帮我把！") == Level(3)
  {
    SentenceLvlIsLevel(SentenceIndex, ToyAlnum, "阿姨， 帮我把！", 3, 0);
  }

  /** A sentence takes its hardest character's level (unit_tests.py:17). */
  lemma SentenceLvlHighest()
    ensures SentenceLvl(SentenceIndex, ToyAlnum, "你抽烟吗?") == Level(4)
  {
    SentenceLvlIsLevel(SentenceIndex, ToyAlnum, "你抽烟吗?", 4, 1);
  }

  const ColumnIndex: map<char, int> :=
    map['婆' := 5, '加' := 3, '班' := 1, '看' := 1, '法' := 3]

  const Column: seq<string> := ["婆婆", "加班", "看法"]

  const ColumnLevels: seq<Classification> := [Level(5), Level(3), Level(3)]

  /** The levels of the test column, position by position, as `ColumnLvl`
      reports them (unit_tests.py:19-20). */
  lemma ColumnLvlScenario()
    ensures forall i :: 0 <= i < |Column| ==> SentenceLvl(ColumnIndex, ToyAlnum, Column[i]) == ColumnLevels[i]
  {
    forall i | 0 <= i < |Column|
      ensures SentenceLvl(ColumnIndex, ToyAlnum, Column[i]) == ColumnLevels[i]
    {
      if i == 0 {
        SentenceLvlIsLevel(ColumnIndex, ToyAlnum, "婆婆", 5, 0);
      } else if i == 1 {
        SentenceLvlIsLevel(ColumnIndex, ToyAlnum, "加班", 3, 0);
      } else {
        SentenceLvlIsLevel(ColumnIndex, ToyAlnum, "看法", 3, 1);
      }
    }
  }

  /** A toy vocabulary table with the levels the count test implies. */
  const CountVocab: seq<Word> :=
    [Word("位", 3), Word("熊猫", 3), Word("奇怪", 3), Word("加班", 4), Word("看法", 4)]

  const CountColumn: seq<string> := ["婆婆", "加班", "看法", "位", "熊猫", "奇怪", "敬酒"]

  const CountKeys: seq<CountKey> :=
    [NotInHsk, InHsk(4), InHsk(4), InHsk(3), InHsk(3), InHsk(3), NotInHsk]

  lemma CountVocabUnique()
    ensures UniqueWords(CountVocab)
  {
  }

  lemma UnknownWords()
    ensures WordKey(CountVocab, CountColumn[0]) == NotInHsk
    ensures WordKey(CountVocab, CountColumn[6]) == NotInHsk
  {
    assert !InVocab(CountVocab, "婆婆");
    assert !InVocab(CountVocab, "敬酒");
  }

  lemma KnownWord(i: int, j: int)
    requires 0 <= i < |CountColumn| && 0 <= j < |CountVocab|
    requires CountColumn[i] == CountVocab[j].hanzi
    ensures WordKey(CountVocab, CountColumn[i]) == InHsk(CountVocab[j].level)
  {
    CountVocabUnique();
    WordKeyRow(CountVocab, j);
  }

  lemma CountColumnKeys()
    ensures seq(|CountColumn|, i requires 0 <= i < |CountColumn| => WordKey(CountVocab, CountColumn[i])) == CountKeys
  {
    forall i | 0 <= i < |CountColumn|
      ensures WordKey(CountVocab, CountColumn[i]) == CountKeys[i]
    {
      if i == 0 || i == 6 {
        UnknownWords();
      } else if i == 1 {
        KnownWord(1, 3);
      } else if i == 2 {
        KnownWord(2, 4);
      } else if i == 3 {
        KnownWord(3, 0);
      } else if i == 4 {
        KnownWord(4, 1);
      } else {
        KnownWord(5, 2);
      }
    }
  }

  /** The count of the test column: three words of level 3, two of level
      4, two not in the table (unit_tests.py:22-25). */
  lemma CountHskScenario()
    ensures CountHsk(CountVocab, CountColumn) == map[InHsk(3) := 3, NotInHsk := 2, InHsk(4) := 2]
  {
    CountVocabUnique();
    CountColumnKeys();
    CountHskUnique(CountVocab, CountColumn);
    CountKeysTally();
  }

  lemma CountKeysTally()
    ensures ValueCounts(CountKeys) == map[InHsk(3) := 3, NotInHsk := 2, InHsk(4) := 2]
  {
  }

  const FilterIndex: map<char, int> :=
    map[
      '好' := 1, '棒' := 4, '啊' := 3, '加' := 3, '班' := 1, '看' := 1, '法' := 3,
      '我' := 1, '们' := 1, '一' := 1, '起' := 1, '去' := 1, '厨' := 4, '房' := 2, '吧' := 2,
      '啤' := 3, '酒' := 3, '很' := 1, '难' := 3, '喝' := 1, '老' := 1, '师' := 1
    ]

  const FilterSpans: seq<string> := ["好棒啊", "加班", "看法", "我们一起去厨房吧", "啤酒很难喝", "老师好"]

  const FilterVerdicts: seq<bool> := [false, true, true, false, true, true]

  const FilterLevels: seq<int> := [4, 3, 3, 4, 3, 1]

  /** A sentence of the filter test passes at level 3 exactly when its
      level against the whole index is at most 3. */
  lemma FilterVerdictAt(s: string, lvl: int, verdict: bool)
    requires SentenceLvl(FilterIndex, ToyAlnum, s) == Level(lvl)
    requires lvl <= 3 <==> verdict
    ensures Passes(FilterIndex, ToyAlnum, s, 3) == verdict
  {
    PassesAgreesWithFullIndex(FilterIndex, ToyAlnum, s, 3);
  }

  lemma FilterSentence0()
    ensures SentenceLvl(FilterIndex, ToyAlnum, "好棒啊") == Level(4)
  {
    SentenceLvlIsLevel(FilterIndex, ToyAlnum, "好棒啊", 4, 1);
  }

  lemma FilterSentence1()
    ensures SentenceLvl(FilterIndex, ToyAlnum, "加班") == Level(3)
  {
    SentenceLvlIsLevel(FilterIndex, ToyAlnum, "加班", 3, 0);
  }

  lemma FilterSentence2()
    ensures SentenceLvl(FilterIndex, ToyAlnum, "看法") == Level(3)
  {
    SentenceLvlIsLevel(FilterIndex, ToyAlnum, "看法", 3, 1);
  }

  lemma FilterSentence3()
    ensures SentenceLvl(FilterIndex, ToyAlnum, "我们一起去厨房吧") == Level(4)
  {
    SentenceLvlIsLevel(FilterIndex, ToyAlnum, "我们一起去厨房吧", 4, 5);
  }

  lemma FilterSentence4()
    ensures SentenceLvl(FilterIndex, ToyAlnum, "啤酒很难喝") == Level(3)
  {
    SentenceLvlIsLevel(FilterIndex, ToyAlnum, "啤酒很难喝", 3, 0);
  }

  lemma FilterSentence5()
    ensures SentenceLvl(FilterIndex, ToyAlnum, "老师好") == Level(1)
  {
    SentenceLvlIsLevel(FilterIndex, ToyAlnum, "老师好", 1, 0);
  }

  /** The levels of the test sentences against the whole toy index. */
  lemma FilterSentenceLevels()
    ensures forall i :: 0 <= i < |FilterSpans| ==> SentenceLvl(FilterIndex, ToyAlnum, FilterSpans[i]) == Level(FilterLevels[i])
  {
    forall i | 0 <= i < |FilterSpans|
      ensures SentenceLvl(FilterIndex, ToyAlnum, FilterSpans[i]) == Level(FilterLevels[i])
    {
      if i == 0 {
        FilterSentence0();
      } else if i == 1 {
        FilterSentence1();
      } else if i == 2 {
        FilterSentence2();
      } else if i == 3 {
        FilterSentence3();
      } else if i == 4 {
        FilterSentence4();
      } else {
        FilterSentence5();
      }
    }
  }

  /** The per-sentence verdicts at level 3: a level-4 character rules a
      sentence out. */
  lemma FilterVerdictsHold()
    ensures forall i :: 0 <= i < |FilterSpans| ==> Passes(FilterIndex, ToyAlnum, FilterSpans[i], 3) == FilterVerdicts[i]
  {
    FilterSentenceLevels();
    assert forall i :: 0 <= i < |FilterSpans| ==> (FilterLevels[i] <= 3 <==> FilterVerdicts[i]);
    forall i | 0 <= i < |FilterSpans|
      ensures Passes(FilterIndex, ToyAlnum, FilterSpans[i], 3) == FilterVerdicts[i]
    {
      FilterVerdictAt(FilterSpans[i], FilterLevels[i], FilterVerdicts[i]);
    }
  }

  lemma FilterMask()
    ensures FilterByLevel(FilterIndex, ToyAlnum, FilterSpans, 3, Indices).mask == FilterVerdicts
  {
    FilterVerdictsHold();
    var m := FilterByLevel(FilterIndex, ToyAlnum, FilterSpans, 3, Indices).mask;
    assert |m| == |FilterVerdicts|;
    forall i | 0 <= i < |m|
      ensures m[i] == FilterVerdicts[i]
    {
    }
  }

  lemma SelectVerdicts()
    ensures Select(FilterSpans, FilterVerdicts) == ["加班", "看法", "啤酒很难喝", "老师好"]
  {
    assert Select(["好棒啊", "加班", "看法", "我们一起去厨房吧", "啤酒很难喝", "老师好"],
                  [false, true, true, false, true, true]) == ["加班", "看法", "啤酒很难喝", "老师好"];
  }

  /** The filter at level 3 in both modes (unit_tests.py:27-31). */
  lemma FilterByLevelScenario()
    ensures FilterByLevel(FilterIndex, ToyAlnum, FilterSpans, 3, Indices).mask == FilterVerdicts
    ensures FilterByLevel(FilterIndex, ToyAlnum, FilterSpans, 3, Values).values
         == ["加班", "看法", "啤酒很难喝", "老师好"]
  {
    FilterMask();
    SelectVerdicts();
    FilterModesAgree(FilterIndex, ToyAlnum, FilterSpans, 3);
  }
}
