/** Sequence helpers shared by the character-index builder, the text
    normaliser and the level filter: order-preserving filtering,
    subsequences, and first-occurrence de-duplication. */
module Seqs {

  /** `a` can be obtained from `b` by deleting elements, keeping the order. */
  predicate IsSubseq<T(==)>(a: seq<T>, b: seq<T>)
    decreases |b|
  {
    if a == [] then true
    else if b == [] then false
    else (a[0] == b[0] && IsSubseq(a[1..], b[1..])) || IsSubseq(a, b[1..])
  }

  /** The elements of `xs` that satisfy `p`, in their original order. */
  function Keep<T(!new)>(xs: seq<T>, p: T -> bool): (r: seq<T>)
    ensures |r| <= |xs|
    ensures forall k :: 0 <= k < |r| ==> p(r[k])
    ensures forall x :: x in r <==> x in xs && p(x)
  {
    if xs == [] then []
    else (if p(xs[0]) then [xs[0]] else []) + Keep(xs[1..], p)
  }

  lemma {:induction false} KeepIsSubseq<T(!new)>(xs: seq<T>, p: T -> bool)
    ensures IsSubseq(Keep(xs, p), xs)
  {
    if xs != [] {
      KeepIsSubseq(xs[1..], p);
      if p(xs[0]) {
        assert Keep(xs, p) == [xs[0]] + Keep(xs[1..], p);
        assert Keep(xs, p)[1..] == Keep(xs[1..], p);
      } else {
        assert Keep(xs, p) == Keep(xs[1..], p);
      }
    }
  }

  lemma {:induction false} KeepAppend<T(!new)>(a: seq<T>, b: seq<T>, p: T -> bool)
    ensures Keep(a + b, p) == Keep(a, p) + Keep(b, p)
  {
    if a != [] {
      assert (a + b)[0] == a[0];
      assert (a + b)[1..] == a[1..] + b;
      KeepAppend(a[1..], b, p);
      assert Keep(a + b, p) == (if p(a[0]) then [a[0]] else []) + Keep(a[1..] + b, p);
    } else {
      assert a + b == b;
    }
  }

  /** Keeping every element already satisfying `p` changes nothing. */
  lemma {:induction false} KeepAll<T(!new)>(xs: seq<T>, p: T -> bool)
    requires forall k :: 0 <= k < |xs| ==> p(xs[k])
    ensures Keep(xs, p) == xs
  {
    if xs != [] {
      KeepAll(xs[1..], p);
    }
  }

  /** The elements of `xs` in order, dropping every element already in
      `seen` and every repeat of an earlier element. */
  function Distinct<T(==,!new)>(xs: seq<T>, seen: set<T>): (r: seq<T>)
    ensures forall x :: x in r <==> x in xs && x !in seen
    ensures forall j, k :: 0 <= j < k < |r| ==> r[j] != r[k]
  {
    if xs == [] then []
    else if xs[0] in seen then Distinct(xs[1..], seen)
    else
      var rest := Distinct(xs[1..], seen + {xs[0]});
      [xs[0]] + rest
  }

  /** Position of the first occurrence of `x` in `xs`. */
  function FirstIndex<T(==)>(xs: seq<T>, x: T): (i: nat)
    requires x in xs
    ensures i < |xs| && xs[i] == x
    ensures forall j :: 0 <= j < i ==> xs[j] != x
  {
    if xs[0] == x then 0 else 1 + FirstIndex(xs[1..], x)
  }

  /** Distinct keeps first occurrences in the order they first appear. */
  lemma {:induction false} DistinctFirstOccurrenceOrder<T(!new)>(xs: seq<T>, seen: set<T>, j: nat, k: nat)
    requires j < k < |Distinct(xs, seen)|
    ensures FirstIndex(xs, Distinct(xs, seen)[j]) < FirstIndex(xs, Distinct(xs, seen)[k])
  {
    var r := Distinct(xs, seen);
    if xs[0] in seen {
      DistinctFirstOccurrenceOrder(xs[1..], seen, j, k);
      assert r[j] != xs[0] && r[k] != xs[0];
    } else {
      var rest := Distinct(xs[1..], seen + {xs[0]});
      assert r == [xs[0]] + rest;
      if j == 0 {
        assert r[k] == rest[k - 1] && r[k] != xs[0];
      } else {
        DistinctFirstOccurrenceOrder(xs[1..], seen + {xs[0]}, j - 1, k - 1);
        assert r[j] != xs[0] && r[k] != xs[0];
      }
    }
  }

  lemma {:induction false} DistinctAppend<T(!new)>(a: seq<T>, b: seq<T>, seen: set<T>)
    ensures Distinct(a + b, seen) == Distinct(a, seen) + Distinct(b, seen + set x | x in a)
  {
    if a == [] {
      assert a + b == b;
      assert seen + (set x | x in a) == seen;
    } else {
      assert (a + b)[1..] == a[1..] + b;
      if a[0] in seen {
        DistinctAppend(a[1..], b, seen);
        assert seen + (set x | x in a) == seen + (set x | x in a[1..]);
      } else {
        DistinctAppend(a[1..], b, seen + {a[0]});
        assert seen + {a[0]} + (set x | x in a[1..]) == seen + (set x | x in a);
      }
    }
  }

  /** Only the part of `seen` that meets `xs` matters. */
  lemma {:induction false} DistinctSeenIrrelevant<T(!new)>(xs: seq<T>, seen: set<T>, seen': set<T>)
    requires forall x :: x in xs ==> (x in seen <==> x in seen')
    ensures Distinct(xs, seen) == Distinct(xs, seen')
  {
    if xs != [] {
      if xs[0] in seen {
        DistinctSeenIrrelevant(xs[1..], seen, seen');
      } else {
        DistinctSeenIrrelevant(xs[1..], seen + {xs[0]}, seen' + {xs[0]});
      }
    }
  }

  /** The elements of `xs` at the positions where `mask` holds, in order. */
  function Select<T>(xs: seq<T>, mask: seq<bool>): (r: seq<T>)
    requires |xs| == |mask|
    ensures |r| <= |xs|
    ensures forall x :: x in r ==> exists i :: 0 <= i < |xs| && mask[i] && xs[i] == x
  {
    if xs == [] then []
    else (if mask[0] then [xs[0]] else []) + Select(xs[1..], mask[1..])
  }

  /** Number of positions where `mask` holds. */
  function CountTrue(mask: seq<bool>): (n: nat)
    ensures n <= |mask|
  {
    if mask == [] then 0 else (if mask[0] then 1 else 0) + CountTrue(mask[1..])
  }

  lemma {:induction false} SelectIsSubseq<T>(xs: seq<T>, mask: seq<bool>)
    requires |xs| == |mask|
    ensures IsSubseq(Select(xs, mask), xs)
    ensures |Select(xs, mask)| == CountTrue(mask)
  {
    if xs != [] {
      SelectIsSubseq(xs[1..], mask[1..]);
      if mask[0] {
        assert Select(xs, mask) == [xs[0]] + Select(xs[1..], mask[1..]);
        assert Select(xs, mask)[1..] == Select(xs[1..], mask[1..]);
      } else {
        assert Select(xs, mask) == Select(xs[1..], mask[1..]);
      }
    }
  }

  /** Every position the mask selects is represented in the selection. */
  lemma {:induction false} SelectContains<T>(xs: seq<T>, mask: seq<bool>, i: nat)
    requires |xs| == |mask| && i < |xs| && mask[i]
    ensures xs[i] in Select(xs, mask)
  {
    if i > 0 {
      SelectContains(xs[1..], mask[1..], i - 1);
    }
  }

  /** Selecting with a pointwise-weaker mask yields a subsequence of the
      selection with the stronger mask. */
  lemma {:induction false} SelectMonotone<T>(xs: seq<T>, m1: seq<bool>, m2: seq<bool>)
    requires |xs| == |m1| == |m2|
    requires forall i :: 0 <= i < |xs| && m1[i] ==> m2[i]
    ensures IsSubseq(Select(xs, m1), Select(xs, m2))
  {
    if xs != [] {
      SelectMonotone(xs[1..], m1[1..], m2[1..]);
      var s1, s2 := Select(xs[1..], m1[1..]), Select(xs[1..], m2[1..]);
      if m1[0] {
        assert Select(xs, m1) == [xs[0]] + s1;
        assert Select(xs, m2) == [xs[0]] + s2;
      } else if m2[0] {
        assert Select(xs, m1) == s1;
        assert Select(xs, m2) == [xs[0]] + s2;
        SubseqCons(s1, s2, xs[0]);
      } else {
        assert Select(xs, m1) == s1;
        assert Select(xs, m2) == s2;
      }
    }
  }

  lemma {:induction false} SubseqCons<T>(a: seq<T>, b: seq<T>, x: T)
    requires IsSubseq(a, b)
    ensures IsSubseq(a, [x] + b)
  {
    if a != [] {
      assert ([x] + b)[1..] == b;
    }
  }
}
