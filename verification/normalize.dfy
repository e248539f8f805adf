/** The text normalisation at the start of hsk_tools.py's `sentence_lvl`:
    keep the alphanumeric characters, then delete every run of ASCII
    letters, so that punctuation, whitespace, Latin names and inline
    translations do not count toward a span's level.

    Python's `str.isalnum` is a Unicode table; here it is a parameter
    `isAlnum`, so every property holds for whatever classification the
    caller supplies. */
module TextNormalizer {
  import opened Seqs

  /** A character matched by the pattern `[A-Za-z]`. */
  predicate IsAsciiLetter(c: char)
  {
    'A' <= c <= 'Z' || 'a' <= c <= 'z'
  }

  predicate NotAsciiLetter(c: char)
  {
    !IsAsciiLetter(c)
  }

  /** A character that survives normalisation. */
  function Eligible(isAlnum: char -> bool): (r: char -> bool)
  {
    c => isAlnum(c) && !IsAsciiLetter(c)
  }

  /** Number of ASCII letters at the start of `s`. */
  function LatinRunLength(s: string): (n: nat)
    ensures n <= |s|
    ensures forall k :: 0 <= k < n ==> IsAsciiLetter(s[k])
    ensures n < |s| ==> !IsAsciiLetter(s[n])
  {
    if s != "" && IsAsciiLetter(s[0]) then 1 + LatinRunLength(s[1..]) else 0
  }

  /** Deletes every maximal run of ASCII letters, as a substitution of the
      pattern `[A-Za-z]+` by the empty string does. */
  function DeleteLatinRuns(s: string): (r: string)
    decreases |s|
  {
    if s == "" then ""
    else if IsAsciiLetter(s[0]) then DeleteLatinRuns(s[LatinRunLength(s)..])
    else [s[0]] + DeleteLatinRuns(s[1..])
  }

  /** Deleting runs of letters is the same as deleting each letter. */
  lemma {:induction false} DeleteLatinRunsIsKeep(s: string)
    ensures DeleteLatinRuns(s) == Keep(s, NotAsciiLetter)
    decreases |s|
  {
    if s != "" {
      if IsAsciiLetter(s[0]) {
        var n := LatinRunLength(s);
        DeleteLatinRunsIsKeep(s[n..]);
        assert s == s[..n] + s[n..];
        KeepAppend(s[..n], s[n..], NotAsciiLetter);
        KeepNone(s[..n], NotAsciiLetter);
      } else {
        DeleteLatinRunsIsKeep(s[1..]);
      }
    }
  }

  lemma {:induction false} KeepNone(s: string, p: char -> bool)
    requires forall k :: 0 <= k < |s| ==> !p(s[k])
    ensures Keep(s, p) == ""
  {
    if s != "" {
      KeepNone(s[1..], p);
    }
  }

  /** Keeping by `p` and then by `q` is keeping by their conjunction. */
  lemma {:induction false} KeepKeep(s: string, p: char -> bool, q: char -> bool, pq: char -> bool)
    requires forall c :: pq(c) == (p(c) && q(c))
    ensures Keep(Keep(s, p), q) == Keep(s, pq)
  {
    if s != "" {
      KeepKeep(s[1..], p, q, pq);
      var k1 := Keep(s[1..], p);
      assert pq(s[0]) == (p(s[0]) && q(s[0]));
      assert Keep(s, pq) == (if pq(s[0]) then [s[0]] else []) + Keep(s[1..], pq);
      if p(s[0]) {
        var k := Keep(s, p);
        assert k == [s[0]] + k1;
        assert k[0] == s[0] && k[1..] == k1;
        assert Keep(k, q) == (if q(s[0]) then [s[0]] else []) + Keep(k1, q);
      } else {
        assert Keep(s, p) == k1;
      }
    }
  }

  /** The normalised span: the alphanumeric characters of `s`, with the
      runs of ASCII letters among them deleted. */
  function Normalize(isAlnum: char -> bool, s: string): (r: string)
    ensures IsSubseq(r, s)
    ensures forall k :: 0 <= k < |r| ==> isAlnum(r[k]) && !IsAsciiLetter(r[k])
    ensures forall c :: c in r <==> c in s && isAlnum(c) && !IsAsciiLetter(c)
  {
    NormalizeIsKeep(isAlnum, s);
    KeepIsSubseq(s, Eligible(isAlnum));
    DeleteLatinRuns(Keep(s, isAlnum))
  }

  /** Normalisation keeps exactly the alphanumeric characters that are not
      ASCII letters, in order. */
  lemma NormalizeIsKeep(isAlnum: char -> bool, s: string)
    ensures DeleteLatinRuns(Keep(s, isAlnum)) == Keep(s, Eligible(isAlnum))
  {
    DeleteLatinRunsIsKeep(Keep(s, isAlnum));
    KeepKeep(s, isAlnum, NotAsciiLetter, Eligible(isAlnum));
  }

  /** A span made only of eligible characters is already in normal form. */
  lemma NormalizeClean(isAlnum: char -> bool, s: string)
    requires forall k :: 0 <= k < |s| ==> isAlnum(s[k]) && !IsAsciiLetter(s[k])
    ensures Normalize(isAlnum, s) == s
  {
    NormalizeIsKeep(isAlnum, s);
    KeepAll(s, Eligible(isAlnum));
  }

  /** Normalising twice is normalising once. */
  lemma NormalizeIdempotent(isAlnum: char -> bool, s: string)
    ensures Normalize(isAlnum, Normalize(isAlnum, s)) == Normalize(isAlnum, s)
  {
    var t := Normalize(isAlnum, s);
    NormalizeIsKeep(isAlnum, t);
    KeepAll(t, Eligible(isAlnum));
  }

  /** Normalisation works character by character: a span's normal form is
      the concatenation of its parts' normal forms. */
  lemma NormalizeAppend(isAlnum: char -> bool, a: string, b: string)
    ensures Normalize(isAlnum, a + b) == Normalize(isAlnum, a) + Normalize(isAlnum, b)
  {
    NormalizeIsKeep(isAlnum, a + b);
    NormalizeIsKeep(isAlnum, a);
    NormalizeIsKeep(isAlnum, b);
    KeepAppend(a, b, Eligible(isAlnum));
  }
}
