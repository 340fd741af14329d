/**
 * The tonality bucket of an article (scraper_to_sheets.py line 93).  The
 * compound polarity score itself comes from an external sentiment model and
 * is taken as given; only the fixed cut points at plus and minus 0.05 are
 * modelled.
 */
module Tonality {

  datatype Tonality = Positive | Neutral | Negative

  /** The lower bound of the Positive bucket and, negated, the upper bound of the Negative one. */
  const Threshold: real := 0.05

  /** The label written to the sheet's `tonality` column. */
  function Label(t: Tonality): (s: string)
    ensures s in {"Positive", "Neutral", "Negative"}
  {
    match t
    case Positive => "Positive"
    case Neutral => "Neutral"
    case Negative => "Negative"
  }

  /** Positive tests first, so the two cut points belong to the outer buckets. */
  function Bucket(score: real): (t: Tonality)
    ensures t == Positive <==> score >= Threshold
    ensures t == Negative <==> score <= -Threshold
    ensures t == Neutral <==> -Threshold < score < Threshold
  {
    if score >= Threshold then Positive
    else if score <= -Threshold then Negative
    else Neutral
  }

  /** Distinct buckets are written as distinct labels, so the sheet column determines the bucket. */
  lemma LabelInjective(t: Tonality, u: Tonality)
    ensures Label(t) == Label(u) <==> t == u
  {
  }

  /** The score never decreases from Negative to Positive: the buckets are ordered like the scores. */
  lemma BucketMonotone(x: real, y: real)
    requires x <= y
    ensures Bucket(x) == Positive ==> Bucket(y) == Positive
    ensures Bucket(y) == Negative ==> Bucket(x) == Negative
  {
  }

  /** The boundary cases: both cut points are inclusive, zero is Neutral. */
  lemma BucketBoundaries()
    ensures Bucket(0.05) == Positive && Label(Bucket(0.05)) == "Positive"
    ensures Bucket(-0.05) == Negative && Label(Bucket(-0.05)) == "Negative"
    ensures Bucket(0.0) == Neutral && Label(Bucket(0.0)) == "Neutral"
  {
  }
}
