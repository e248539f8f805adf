# HSK level classifier — a Dafny model

This project models the level-classification engine of the
chinese-lang-tools study scripts. HSK is the six-level Chinese proficiency
word list. The engine does four things:

- **Character index** (`create_char_df` in data_load.py). It turns the
  leveled word list into a character table. Levels are scanned from 1 to 6.
  Each level's words are joined into one string. Characters already seen in
  the strings of lower levels are deleted from it. Every surviving character
  becomes a (character, level) row, and duplicate rows are dropped. So a
  character is listed once, at the lowest level whose words contain it.
- **Classifier** (`hskInterpreter` in hsk_tools.py).
  - `char_lvl` looks a character up in the table.
  - `sentence_lvl` normalises a span first. It keeps the alphanumeric
    characters and then deletes runs of ASCII letters. It then takes the
    maximum level of what is left.
  - `column_lvl` applies `sentence_lvl` to every span of a column.
  - `count_hsk` left-joins a column of words with the vocabulary table and
    counts the rows per level, with "Not in HSK" for words that have no
    match.
- **Level filter** (`filter_by_level` in sentences/create_sentence_list.py).
  It restricts the character table to levels at most a threshold. It then
  keeps, in order, the sentences whose level is at most the threshold. The
  callers use it in two ways: returning the kept sentences, or returning a
  boolean mask to index the input with.

Python's `max` raises `ValueError` when nothing is left after
normalisation. It raises `TypeError` on any list of two or more items that
contains `None`, that is, whenever a span of two or more characters has an
unknown one. The model makes these outcomes values of
`Levels.Classification`:

- `Level(n)` is a level;
- `Unknown` means some character is not in the table, and it dominates;
- `Empty` means nothing was left to classify.

A filter keeps only `Level(n)` with `n` at most the threshold.

Modules, in dependency order:

- `seqs.dfy`: `Seqs`, the sequence toolkit. It has subsequences, filtering
  (`Keep`), first-occurrence de-duplication (`Distinct`) and mask selection
  (`Select`).
- `levels.dfy`: `Levels`, the classification type, its order `Le` and its
  least upper bound `Join`.
- `charindex.dfy`: `CharIndex`, the character-index builder and its lookup
  map.
- `normalize.dfy`: `TextNormalizer`, the span normalisation.
- `interpreter.dfy`: `HskInterpreter`, which has `char_lvl`,
  `sentence_lvl`, `column_lvl` and `count_hsk`.
- `filter.dfy`: `LevelFilter`, the level filter.
- `scenarios.dfy`: `Scenarios`, the repository's unit-test expectations
  restated over small toy tables.

The tables the source reads from disk are parameters here:

- the word list is `seq<CharIndex.Word>`;
- the character table is `seq<CharIndex.Entry>`, or its lookup
  `map<char, int>`;
- the vocabulary is `seq<CharIndex.Word>`;
- `str.isalnum` is a predicate parameter `isAlnum`.

## Model

| member | source | states |
|---|---|---|
| CharIndex.CreateCharDf | data_load.py:31-60 | the builder: de-duplicated stack of the processed strings of levels 1..6; no ensures of its own, its meaning is given by CreateCharDfFirstLevel, CreateCharDfCovers, CreateCharDfUniqueSorted and CreateCharDfPerLevel |
| CharIndex.CharList | data_load.py:44-52 | the loop: one processed string per level scanned, each level's joined text with the characters of the earlier processed strings deleted; its ensures gives only the count, its meaning is CharListInvariant and ProcessedMembership |
| CharIndex.LevelText | data_load.py:46 | a character is in the joined text of level i exactly when some word tagged i contains it |
| CharIndex.RemoveChars | data_load.py:49-50 | the inner loop, one replace-all per character of an earlier processed string; no ensures of its own, its meaning is RemoveCharsIsWithout |
| CharIndex.RemoveEarlier | data_load.py:48-50 | the loop over the earlier processed strings; no ensures of its own, its meaning is RemoveEarlierIsWithout |
| CharIndex.RemoveCharsIsWithout | data_load.py:48-50 | deleting each character of a string in turn, as repeated `replace(char, '')` does, deletes exactly the characters of that string and keeps the rest in order |
| CharIndex.RemoveEarlierIsWithout | data_load.py:48-50 | deleting the characters of every earlier processed string is deleting the union of their characters |
| CharIndex.CharListInvariant | data_load.py:44-52 | loop invariant: after level n, the processed strings together hold exactly the characters of the raw word lists of levels 1..n, and string i is level i's text minus the raw characters of levels below i |
| CharIndex.CharListDisjoint | data_load.py:48-52 | a character in the processed string of one level is in no processed string of a later level |
| CharIndex.ProcessedMembership | data_load.py:44-52 | a character is in the processed string of level i exactly when i is the lowest level whose words contain it |
| CharIndex.Stack | data_load.py:54-56 | the stacked rows are exactly the (c, i) with c in the processed string of level i, for i in 1..6 |
| CharIndex.StackSorted | data_load.py:54-56 | the stacked rows are in ascending order of level |
| CharIndex.DropDuplicates | data_load.py:58 | dropping duplicates keeps the same set of rows, each at most once |
| Seqs.DistinctFirstOccurrenceOrder | data_load.py:58 | de-duplication keeps first occurrences in input order: for two kept rows, the one listed first occurs first in the input |
| CharIndex.DropDuplicatesStack | data_load.py:54-58 | dropping duplicates from the stack is the same as de-duplicating each level's string and then stacking, so the row order within a level is the order of first occurrence |
| CharIndex.StackUniqueHanzi | data_load.py:48-58 | stacking repeat-free and pairwise disjoint strings lists every character in at most one row |
| CharIndex.CreateCharDfUniqueSorted | data_load.py:44-58 | each character appears in at most one row of the character table, and the rows are in ascending order of level |
| CharIndex.CreateCharDfFirstLevel | data_load.py:44-58 | (c, i) is a row of the table exactly when i is the lowest level in 1..6 whose words contain c |
| CharIndex.CreateCharDfCovers | data_load.py:44-56 | a character is in the table exactly when it occurs in a word tagged with a level in 1..6 |
| CharIndex.CreateCharDfPerLevel | data_load.py:54-58 | the table is each level's de-duplicated processed string tagged with that level, stacked from level 1 up |
| CharIndex.CreateCharDfIgnoresOtherLevels | data_load.py:44-46 | adding a word tagged with a level outside 1..6 leaves the table unchanged |
| CharIndex.Index | hsk_tools.py:16 | the table indexed by character has a key exactly for each listed character, and maps it to the level of that character's first row |
| HskInterpreter.CharLvl | hsk_tools.py:19-24 | a lookup is never `Empty`; the body is the map lookup, and CharLvlFirstSeen gives its meaning on a built index |
| HskInterpreter.CharLvlFirstSeen | hsk_tools.py:19-24 | looking a character up in the index built from the word list gives Level(i) exactly when i is the lowest level whose words contain it, and `Unknown` exactly when no word of levels 1..6 contains it |
| TextNormalizer.DeleteLatinRuns | hsk_tools.py:30 | the substitution of `[A-Za-z]+` by the empty string, scanning maximal runs left to right; no ensures of its own, its meaning is DeleteLatinRunsIsKeep |
| TextNormalizer.DeleteLatinRunsIsKeep | hsk_tools.py:30 | deleting every maximal run of `[A-Za-z]` is the same as deleting each ASCII letter |
| TextNormalizer.Normalize | hsk_tools.py:29-30 | the normal form is a subsequence of the input, made of alphanumeric non-ASCII-letter characters, and contains every such character of the input |
| TextNormalizer.NormalizeIsKeep | hsk_tools.py:29-30 | normalising keeps exactly the alphanumeric characters that are not ASCII letters, in their input order |
| TextNormalizer.NormalizeIdempotent | hsk_tools.py:29-30 | normalising twice gives the same result as normalising once |
| TextNormalizer.NormalizeAppend | hsk_tools.py:29-30 | the normal form of a concatenation is the concatenation of the normal forms |
| TextNormalizer.NormalizeClean | hsk_tools.py:29-30 | a span made only of alphanumeric non-ASCII-letter characters is its own normal form |
| Levels.Join | hsk_tools.py:31 | combining two outcomes gives one of them, and it is their least upper bound in the classification order |
| Levels.LeTotalOrder | hsk_tools.py:31 | the classification order is reflexive, antisymmetric, transitive and total, so a span's level is a maximum in one order |
| HskInterpreter.SpanLevel | hsk_tools.py:31 | a normalised span's level is `Empty` exactly for the empty span and `Unknown` exactly when some character is unindexed; otherwise it is at least every character's level and equal to one of them |
| HskInterpreter.SentenceLvl | hsk_tools.py:27-31 | the same four facts, stated over the characters of the raw sentence that survive normalisation |
| HskInterpreter.SentenceLvlIsLevel | hsk_tools.py:27-31 | a sentence has level n when every surviving character is indexed at n or below and one of them is indexed at n |
| HskInterpreter.SpanLevelAppend | hsk_tools.py:31 | the level of a concatenation is the join of the parts' levels |
| HskInterpreter.SentenceLvlAppendNeverLowers | hsk_tools.py:27-31 | appending text to a sentence never lowers its level |
| HskInterpreter.SentenceLvlIgnoresNoise | hsk_tools.py:29-31 | inserting punctuation, whitespace or Latin letters anywhere in a sentence leaves its level unchanged |
| HskInterpreter.ColumnLvl | hsk_tools.py:34-36 | the result has one entry per span of the column, and entry i is the level of span i |
| HskInterpreter.VocabLevels | hsk_tools.py:48-49 | the levels the join finds for a word are exactly the levels of the vocabulary rows spelled that way |
| HskInterpreter.MatchKeys | hsk_tools.py:48-50 | a word yields at least one joined row; an unmatched word yields exactly one row, "Not in HSK"; a matched word yields the level of every matching row, and every level it yields belongs to a row spelled like the word |
| HskInterpreter.JoinedKeys | hsk_tools.py:48-50 | the level column of the left merge, with missing levels filled as "Not in HSK"; its ensures gives at least one row per input word, its meaning is JoinedKeysMembers, JoinedKeysLevels and CountHskUnique |
| HskInterpreter.ValueCounts | hsk_tools.py:52 | a key is counted exactly when it occurs, and its count is its number of occurrences, which is positive |
| HskInterpreter.CountHsk | hsk_tools.py:39-52 | every count is positive; "Not in HSK" is a key exactly when some word has no match; a level is a key exactly when it is the level of a vocabulary row spelled like some input word |
| HskInterpreter.JoinedKeysLevels | hsk_tools.py:48-50 | every level in the joined column is the level of a vocabulary row spelled like some input word |
| HskInterpreter.WordKey | hsk_tools.py:48-50 | a single word's key is "Not in HSK" exactly when the word is not in the vocabulary, and otherwise is the level of a row spelled that way |
| HskInterpreter.WordKeyRow | hsk_tools.py:48-50 | with unique vocabulary words, a vocabulary word is counted under its own row's level |
| HskInterpreter.UniqueMatchKeys | hsk_tools.py:48-50 | with unique vocabulary words, the join yields exactly one row per word |
| HskInterpreter.CountHskUnique | hsk_tools.py:48-52 | with unique vocabulary words, the joined column is each word's key in input order, so the counts add up to the number of input words, and the count of every key in the result of `count_hsk` is the number of input words with that key |
| LevelFilter.RestrictIndex | sentences/create_sentence_list.py:54 | the restricted table holds exactly the characters whose level is at most the threshold, with unchanged levels |
| LevelFilter.Passes | sentences/create_sentence_list.py:54-59 | the filter predicate: the sentence's level against the restricted table is a number at most the threshold; no ensures of its own, its meaning is PassesAgreesWithFullIndex |
| LevelFilter.LevelMask | sentences/create_sentence_list.py:56-59 | the mask has one verdict per sentence, and verdict i says whether sentence i passes |
| LevelFilter.FilterByLevel | sentences/create_sentence_list.py:46-61 | index mode gives the mask of passing positions; values mode gives a subsequence of the input in which every sentence passes and every passing sentence appears, one per passing position |
| LevelFilter.FilterModesAgree | sentences/create_sentence_list.py:46-61 | the kept sentences are the input at the positions the mask marks |
| LevelFilter.PassesAgreesWithFullIndex | sentences/create_sentence_list.py:54-59 | a sentence passes exactly when its level against the whole table is a number at most the threshold, and then both tables give it the same level |
| LevelFilter.HardCharacterFails | sentences/create_sentence_list.py:54-59 | a sentence with a surviving character that is unknown, or indexed above the threshold, never passes |
| LevelFilter.PassesMonotone | sentences/create_sentence_list.py:54-59 | a sentence that passes at one threshold passes at every higher one |
| LevelFilter.FilterMonotone | sentences/create_sentence_list.py:46-61 | the sentences kept at one threshold are a subsequence of those kept at any higher one |
| Seqs.SelectIsSubseq | sentences/create_sentence_list.py:59 | selecting by a mask keeps an in-order subsequence |
| Seqs.SelectMonotone | sentences/create_sentence_list.py:59 | selecting with a mask that marks more positions keeps a supersequence |
| Scenarios.CharLvlScenario | unit_tests.py:8-13 | 话, 给, 干, 广, 抓, 颇 look up as levels 1 to 6, and a character outside the table is `Unknown` |
| Scenarios.SentenceLvlQuestion | unit_tests.py:15 | 你今天怎么样? has level 1 |
| Scenarios.SentenceLvlFullWidth | unit_tests.py:16 | 阿姨， 帮我把！ has level 3 |
| Scenarios.SentenceLvlHighest | unit_tests.py:17 | 你抽烟吗? has level 4 |
| Scenarios.ColumnLvlScenario | unit_tests.py:19-20 | the column 婆婆, 加班, 看法 has levels 5, 3, 3 |
| Scenarios.CountHskScenario | unit_tests.py:22-25 | the test column counts three words at level 3, two at level 4 and two not in HSK |
| Scenarios.FilterByLevelScenario | unit_tests.py:27-31 | at threshold 3 the filter keeps 加班, 看法, 啤酒很难喝, 老师好, and the mask marks exactly those positions |

## Left out

- `get_df_hsk` (data_load.py:4-28) is left out: it fetches CSV files over the network.
- `vocab_to_anki` and `chars_to_anki` (data_load.py:63-78) are left out: they read and write spreadsheet files and concatenate display strings.
- The module-level code of data_load.py (lines 81-88) is left out: it only writes files.
- `hskInterpreter.__init__` (hsk_tools.py:13-16) is left out: it reads CSV files. The vocabulary and the character table are parameters instead, and `CharIndex.Index` stands for the character-indexed table of line 16.
- `plot_hsk_levels` (hsk_tools.py:55-63) is left out because it is plotting, and so is the test run at import time (hsk_tools.py:65-66).
- `load_datasets` (sentences/create_sentence_list.py:16-42) and `load_sentence_datasets` (create_sentence_list.py) are left out, together with both scripts' top-level lines: they are spreadsheet I/O and column renaming.
- `extract_hanzi_from_string` and `assign_lvl_to_sentence` are called by sentences/create_sentence_list.py but are not part of this model. The filter uses `TextNormalizer.Normalize` and `HskInterpreter.SentenceLvl` in their place.
- `hskInterpreter.filter_by_level` is called at create_sentence_list.py:42 and unit_tests.py:27, but its definition is not part of this model. `LevelFilter.FilterByLevel` follows sentences/create_sentence_list.py:46-61, adding a mask mode for the `how='index'` call.
- Unicode `str.isalnum` is a caller-supplied predicate rather than a Unicode table. `Scenarios.ToyAlnum` is the stand-in used for the test sentences.
- Python's `ValueError` from `max([])` is not reproduced; it becomes the `Empty` outcome. Nor is the `TypeError` that `max` raises on any list of two or more items containing `None`; it becomes `Unknown`. A lone unknown character gives `None` in the source and `Unknown` here.
- `filter_by_level` in sentences/create_sentence_list.py:56-58 writes an `'HSK level'` column into the caller's table in place, and the rows it returns carry each kept sentence's level against the restricted table. Neither is modelled: `LevelFilter.FilterByLevel` returns only the sentences (or the mask), and the level of a kept sentence is available as `HskInterpreter.SentenceLvl` of the restricted table (`LevelFilter.PassesAgreesWithFullIndex` shows it equals the level against the whole table).
- pandas details are not modelled: the order of `value_counts`, the float keys (3.0) that `fillna` leaves, and Series index alignment. Counts are a `map<CountKey, nat>`.
- The character table uses the index of its first row per character. The source's `.loc` on a repeated index would return several rows, but the table the builder produces has none (`CharIndex.CreateCharDfUniqueSorted`).
- HskInterpreter.CountHsk: its ensures give the key set in both directions and positive counts, but not the count per key; that comes from its body, which applies `ValueCounts` to the joined column. The count per key as the number of input words with that key, and the total equal to the input length, are proved only for vocabularies with unique words (`HskInterpreter.CountHskUnique`). A repeated vocabulary word makes the left join yield several rows, as in the source.
- The unit tests need the real HSK tables, which are not part of this model. The scenarios use toy tables that give the tested characters the levels the tests imply. In the count test the expected result is three words at level 3, two not in HSK and two at level 4, and the model follows it.
