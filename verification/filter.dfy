/** The level filter of sentences/create_sentence_list.py's
    `filter_by_level`: restrict the character table to the levels up to a
    threshold, classify each sentence from its normalised characters
    against that restricted table, and keep the sentences whose level is
    at most the threshold, in their original order. The filter can return
    the kept sentences or a boolean mask over the input positions. */
module LevelFilter {
  import opened Seqs
  import opened Levels
  import opened TextNormalizer
  import opened HskInterpreter

  /** The character table restricted to the rows of level at most `level`. */
  function RestrictIndex(index: map<char, int>, level: int): (r: map<char, int>)
    ensures forall c :: c in r <==> c in index && index[c] <= level
    ensures forall c :: c in r ==> r[c] == index[c]
  {
    map c | c in index && index[c] <= level :: index[c]
  }

  /** A sentence passes the filter at `level`: against the restricted
      table it has a numeric level, and that level is at most `level`. An
      empty or unknown outcome never passes. */
  predicate Passes(index: map<char, int>, isAlnum: char -> bool, s: string, level: int)
  {
    var lvl := SentenceLvl(RestrictIndex(index, level), isAlnum, s);
    lvl.Level? && lvl.n <= level
  }

  /** The filter's verdict for every position of the input. */
  function LevelMask(index: map<char, int>, isAlnum: char -> bool, spans: seq<string>, level: int): (mask: seq<bool>)
    ensures |mask| == |spans|
    ensures forall i :: 0 <= i < |spans| ==> mask[i] == Passes(index, isAlnum, spans[i], level)
  {
    seq(|spans|, i requires 0 <= i < |spans| => Passes(index, isAlnum, spans[i], level))
  }

  /** What the filter returns: the kept sentences, or the mask. */
  datatype ReturnMode = Values | Indices

  datatype Filtered = Kept(values: seq<string>) | Mask(mask: seq<bool>)

  /** Filters a column of sentences by level. */
  function FilterByLevel(index: map<char, int>, isAlnum: char -> bool, spans: seq<string>,
                         level: int, how: ReturnMode): (r: Filtered)
    ensures how == Indices ==> r.Mask? && |r.mask| == |spans|
    ensures how == Indices ==> forall i :: 0 <= i < |spans| ==> (r.mask[i] <==> Passes(index, isAlnum, spans[i], level))
    ensures how == Values ==> r.Kept? && IsSubseq(r.values, spans)
    ensures how == Values ==> forall k :: 0 <= k < |r.values| ==> Passes(index, isAlnum, r.values[k], level)
    ensures how == Values ==> forall i :: 0 <= i < |spans| && Passes(index, isAlnum, spans[i], level) ==> spans[i] in r.values
    ensures how == Values ==> |r.values| == CountTrue(LevelMask(index, isAlnum, spans, level))
  {
    var mask := LevelMask(index, isAlnum, spans, level);
    match how
    case Indices => Mask(mask)
    case Values =>
      SelectIsSubseq(spans, mask);
      forall i | 0 <= i < |spans| && mask[i]
        ensures spans[i] in Select(spans, mask)
      {
        SelectContains(spans, mask, i);
      }
      var kept := Select(spans, mask);
      forall k | 0 <= k < |kept|
        ensures Passes(index, isAlnum, kept[k], level)
      {
        assert kept[k] in kept;
        var i :| 0 <= i < |spans| && mask[i] && spans[i] == kept[k];
      }
      Kept(kept)
  }

  /** The two modes agree: the kept sentences are the input at the
      positions the mask marks. */
  lemma FilterModesAgree(index: map<char, int>, isAlnum: char -> bool, spans: seq<string>, level: int)
    ensures FilterByLevel(index, isAlnum, spans, level, Values).values
         == Select(spans, FilterByLevel(index, isAlnum, spans, level, Indices).mask)
  {
  }

  /** Restricting the table and then thresholding is the same as
      classifying against the whole table and keeping only numeric levels
      at most the threshold; when a sentence passes, both tables give it
      the same level. */
  lemma PassesAgreesWithFullIndex(index: map<char, int>, isAlnum: char -> bool, s: string, level: int)
    ensures Passes(index, isAlnum, s, level) <==>
      (SentenceLvl(index, isAlnum, s).Level? && SentenceLvl(index, isAlnum, s).n <= level)
    ensures Passes(index, isAlnum, s, level) ==>
      SentenceLvl(RestrictIndex(index, level), isAlnum, s) == SentenceLvl(index, isAlnum, s)
  {
    var full := SentenceLvl(index, isAlnum, s);
    var restricted := RestrictIndex(index, level);
    var part := SentenceLvl(restricted, isAlnum, s);
    if full.Level? && full.n <= level {
      assert part != Unknown by {
        forall c | c in s && isAlnum(c) && !IsAsciiLetter(c)
          ensures c in restricted
        {
          assert c in index && index[c] <= full.n;
        }
      }
      assert part != Empty;
      var c :| c in s && isAlnum(c) && !IsAsciiLetter(c) && c in restricted && restricted[c] == part.n;
      assert part.n <= full.n;
      var d :| d in s && isAlnum(d) && !IsAsciiLetter(d) && d in index && index[d] == full.n;
      assert d in restricted;
      assert full.n <= part.n;
    }
    if part.Level? && part.n <= level {
      assert full != Empty;
      assert full != Unknown by {
        forall c | c in s && isAlnum(c) && !IsAsciiLetter(c)
          ensures c in index
        {
          assert c in restricted;
        }
      }
      var d :| d in s && isAlnum(d) && !IsAsciiLetter(d) && d in index && index[d] == full.n;
      assert d in restricted;
    }
  }

  /** A sentence with a character that the restricted table lacks, whether
      unknown altogether or above the threshold, never passes. */
  lemma HardCharacterFails(index: map<char, int>, isAlnum: char -> bool, s: string, level: int, c: char)
    requires c in s && isAlnum(c) && !IsAsciiLetter(c)
    requires c !in index || index[c] > level
    ensures !Passes(index, isAlnum, s, level)
  {
    PassesAgreesWithFullIndex(index, isAlnum, s, level);
  }

  /** A sentence kept at one threshold is kept at every higher one. */
  lemma PassesMonotone(index: map<char, int>, isAlnum: char -> bool, s: string, level: int, higher: int)
    requires level <= higher
    requires Passes(index, isAlnum, s, level)
    ensures Passes(index, isAlnum, s, higher)
  {
    PassesAgreesWithFullIndex(index, isAlnum, s, level);
    PassesAgreesWithFullIndex(index, isAlnum, s, higher);
  }

  /** Raising the threshold only adds sentences: the output at `level` is
      a subsequence of the output at any higher threshold. */
  lemma FilterMonotone(index: map<char, int>, isAlnum: char -> bool, spans: seq<string>, level: int, higher: int)
    requires level <= higher
    ensures IsSubseq(FilterByLevel(index, isAlnum, spans, level, Values).values,
                     FilterByLevel(index, isAlnum, spans, higher, Values).values)
  {
    var m1 := LevelMask(index, isAlnum, spans, level);
    var m2 := LevelMask(index, isAlnum, spans, higher);
    forall i | 0 <= i < |spans| && m1[i]
      ensures m2[i]
    {
      PassesMonotone(index, isAlnum, spans[i], level, higher);
    }
    SelectMonotone(spans, m1, m2);
  }
}
