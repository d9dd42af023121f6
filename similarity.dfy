/** The "flexible" search mode's test: a name is similar to the query when
    their token-set similarity score reaches a threshold, 80 by default.
    The score is `fuzz.token_set_ratio` of the `thefuzz` library, whose
    definition is not part of this model: it is a parameter of every
    operation that uses it, known only to lie between 0 and 100. */
module Similarity {

  /** A similarity score. */
  type Score = x: int | 0 <= x <= 100

  /** A scoring function such as `fuzz.token_set_ratio`. */
  type Scorer = (string, string) -> Score

  /** The threshold `is_similar` uses when none is given. */
  const DefaultThreshold: int := 80

  /** `is_similar(a, b, threshold)`. */
  predicate IsSimilar(ratio: Scorer, a: string, b: string, threshold: int) {
    ratio(a, b) >= threshold
  }

  /** Lowering the threshold never turns a match into a non-match. */
  lemma ThresholdMonotone(ratio: Scorer, a: string, b: string, lower: int, higher: int)
    requires lower <= higher && IsSimilar(ratio, a, b, higher)
    ensures IsSimilar(ratio, a, b, lower)
  {
  }

  /** A threshold of 0 or less accepts every pair; one above 100 accepts none. */
  lemma ThresholdExtremes(ratio: Scorer, a: string, b: string, threshold: int)
    ensures threshold <= 0 ==> IsSimilar(ratio, a, b, threshold)
    ensures threshold > 100 ==> !IsSimilar(ratio, a, b, threshold)
  {
  }
}
