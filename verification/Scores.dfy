/** Floating-point scores and their comparison, with NaN and the infinities. */
module Scores {

  /** A float score, as far as the comparisons can tell values apart. */
  datatype Score = NotANumber | NegativeInfinity | Finite(value: real) | PositiveInfinity

  /** IEEE `a > b`: false as soon as either side is NaN. */
  predicate Greater(a: Score, b: Score) {
    match (a, b)
    case (Finite(x), Finite(y)) => x > y
    case (PositiveInfinity, Finite(_)) => true
    case (PositiveInfinity, NegativeInfinity) => true
    case (Finite(_), NegativeInfinity) => true
    case _ => false
  }

  /** `a <= b` on the extended reals, for scores that are numbers. */
  ghost predicate NoMore(a: Score, b: Score) {
    || a == NegativeInfinity || b == PositiveInfinity
    || (a.Finite? && b.Finite? && a.value <= b.value)
  }

  /** The comparison is the order of the extended reals on numbers, and never holds next to NaN. */
  lemma GreaterIff(a: Score, b: Score)
    ensures Greater(a, b) <==> a != NotANumber && b != NotANumber && !NoMore(a, b)
  {
  }

  lemma GreaterIsTransitive(a: Score, b: Score, c: Score)
    requires b != NotANumber
    requires !Greater(a, b) && !Greater(b, c)
    ensures !Greater(a, c)
  {
  }
}
