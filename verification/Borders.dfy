/** Ends of a score range: finite (open or closed) or infinite. */
module Borders {
  const NEGATIVE_INF := -1
  const POSITIVE_INF := 1

  /** `inf` is an int8 in the source; any value but -1 and 1 means finite.
      An infinite border still carries a `value`. */
  datatype ScoreBorder = ScoreBorder(inf: int, value: real, exclude: bool) {
    /** As an upper end: the score is within it. */
    predicate Greater(score: real) {
      if inf == NEGATIVE_INF then false
      else if inf == POSITIVE_INF then true
      else if exclude then value > score
      else value >= score
    }

    /** As a lower end: the score is within it. */
    predicate Less(score: real) {
      if inf == NEGATIVE_INF then true
      else if inf == POSITIVE_INF then false
      else if exclude then value < score
      else value <= score
    }

    predicate Finite() {
      inf != NEGATIVE_INF && inf != POSITIVE_INF
    }
  }

  const POSITIVE_INF_BORDER := ScoreBorder(POSITIVE_INF, 0.0, false)
  const NEGATIVE_INF_BORDER := ScoreBorder(NEGATIVE_INF, 0.0, false)

  predicate InRange(min: ScoreBorder, max: ScoreBorder, score: real) {
    min.Less(score) && max.Greater(score)
  }

  /** The scores between two borders: the ends belong to the range unless excluded,
      and an infinite end does not bound it, or leaves nothing. */
  lemma InRangeExact(min: ScoreBorder, max: ScoreBorder, score: real)
    ensures InRange(min, max, score) <==>
            && (min.inf == -1 || (min.Finite() && (min.value < score || (min.value == score && !min.exclude))))
            && (max.inf == 1 || (max.Finite() && (score < max.value || (score == max.value && !max.exclude))))
  {
  }

  /** The test on the two borders alone that the range queries start with. */
  predicate GuardRejects(min: ScoreBorder, max: ScoreBorder) {
    || (min.value > max.value && max.inf != POSITIVE_INF)
    || (min.value == max.value && (min.exclude || max.exclude))
  }

  /** No score lies between the borders. */
  predicate EmptyRange(min: ScoreBorder, max: ScoreBorder) {
    || min.inf == POSITIVE_INF
    || max.inf == NEGATIVE_INF
    || (&& min.Finite() && max.Finite()
        && (min.value > max.value || (min.value == max.value && (min.exclude || max.exclude))))
  }

  /** `EmptyRange` is exact over the real scores. */
  lemma EmptyRangeExact(min: ScoreBorder, max: ScoreBorder)
    ensures EmptyRange(min, max) <==> forall score :: !InRange(min, max, score)
  {
    if !EmptyRange(min, max) {
      var middle :=
        if min.Finite() && max.Finite() then (min.value + max.value) / 2.0
        else if min.Finite() then min.value + 1.0
        else max.value - 1.0;
      assert InRange(min, max, middle);
    }
  }

  /** The guard never rejects a range that holds a score exactly when its ends
      are told apart by their values: always for two finite ends, but an
      infinite end is still compared by the value it happens to carry. */
  lemma GuardSound(min: ScoreBorder, max: ScoreBorder)
    ensures min.Finite() && max.Finite() ==> (GuardRejects(min, max) <==> EmptyRange(min, max))
    ensures min == NEGATIVE_INF_BORDER && max == POSITIVE_INF_BORDER ==> !GuardRejects(min, max)
  {
  }
}
