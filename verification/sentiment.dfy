/** `get_sentiment`: the three-way label drawn from VADER's compound score.
    The scorer itself is a parameter: any function from text to a compound
    polarity score. */
module Sentiment {

  datatype Label = Negative | Neutral | Positive

  /** The Python value `get_sentiment` receives: a `str`, or anything else
      (a missing comment arrives from pandas as a float NaN). */
  datatype Input = Str(text: string) | NotStr

  const PositiveThreshold: real := 0.05
  const NegativeThreshold: real := -0.05

  /** Position in the order Negative < Neutral < Positive. */
  function Rank(l: Label): nat {
    match l
    case Negative => 0
    case Neutral => 1
    case Positive => 2
  }

  /** The string `get_sentiment` returns for each label. */
  function Name(l: Label): (s: string)
    ensures s in {"Positive", "Negative", "Neutral"}
  {
    match l
    case Positive => "Positive"
    case Negative => "Negative"
    case Neutral => "Neutral"
  }

  /** The three labels have three different names. */
  lemma NameInjective(a: Label, b: Label)
    ensures Name(a) == Name(b) <==> a == b
  {
  }

  /** The threshold mapping on a compound score. */
  function Classify(compound: real): (l: Label)
    ensures l == Positive <==> compound >= PositiveThreshold
    ensures l == Negative <==> compound <= NegativeThreshold
    ensures l == Neutral <==> NegativeThreshold < compound < PositiveThreshold
  {
    if compound >= PositiveThreshold then Positive
    else if compound <= NegativeThreshold then Negative
    else Neutral
  }

  /** `get_sentiment(text)`: a non-string is Neutral without consulting the
      scorer; a string is labelled by its compound score. */
  function GetSentiment(v: Input, compound: string -> real): (l: Label)
    ensures v.NotStr? ==> l == Neutral
    ensures v.Str? ==> (l == Positive <==> compound(v.text) >= 0.05)
    ensures v.Str? ==> (l == Negative <==> compound(v.text) <= -0.05)
    ensures v.Str? ==> (l == Neutral <==> -0.05 < compound(v.text) < 0.05)
  {
    match v
    case NotStr => Neutral
    case Str(t) => Classify(compound(t))
  }

  /** A non-string gets the same label whatever the scorer would say. */
  lemma NotStrIgnoresScorer(f: string -> real, g: string -> real)
    ensures GetSentiment(NotStr, f) == GetSentiment(NotStr, g) == Neutral
  {
  }

  /** The labelling is monotone in the score. */
  lemma ClassifyMonotone(c1: real, c2: real)
    requires c1 <= c2
    ensures Rank(Classify(c1)) <= Rank(Classify(c2))
  {
  }
}
