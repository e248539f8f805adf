/** The outcome of classifying a character or a text span, and the way
    per-character outcomes combine into the level of a span. */
module Levels {

  /** `Level(n)`: an HSK level. `Unknown`: some character has no level in the
      character table. `Empty`: nothing was left to classify. The source
      returns `None` for a missing character and crashes on `max([])` and on
      `max` over a mix of `None` and numbers; these two variants make those
      outcomes values instead. */
  datatype Classification = Level(n: int) | Unknown | Empty

  /** Classification order: no characters is below every level, levels are
      ordered numerically, and an unknown character is above every level
      (it is too hard for any threshold). */
  predicate Le(a: Classification, b: Classification)
  {
    match a
    case Empty => true
    case Level(m) => (b.Level? && m <= b.n) || b.Unknown?
    case Unknown => b.Unknown?
  }

  /** Combines two classifications the way a span's maximum is built one
      character at a time: `Empty` is neutral, `Unknown` absorbs, and two
      levels give the larger. */
  function Join(a: Classification, b: Classification): (r: Classification)
    ensures r == a || r == b
    ensures Le(a, r) && Le(b, r)
    ensures forall c :: Le(a, c) && Le(b, c) ==> Le(r, c)
  {
    match (a, b)
    case (Empty, _) => b
    case (_, Empty) => a
    case (Unknown, _) => Unknown
    case (_, Unknown) => Unknown
    case (Level(m), Level(k)) => if m >= k then a else b
  }

  /** The classification order is a total order, so the least upper bound
      `Join` computes is the larger of its two arguments. */
  lemma LeTotalOrder(a: Classification, b: Classification, c: Classification)
    ensures Le(a, a)
    ensures Le(a, b) && Le(b, a) ==> a == b
    ensures Le(a, b) && Le(b, c) ==> Le(a, c)
    ensures Le(a, b) || Le(b, a)
  {
  }
}
