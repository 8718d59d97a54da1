/** The six named quality dimensions: the scorer produces one value per name and the result
    store keeps one nullable column per name. */
module Metrics {

  datatype Dimension = Relevance | Accuracy | Completeness | Consistency | Efficiency | Bias

  /** The key under which a dimension appears in a score map. */
  function Key(d: Dimension): string {
    match d
    case Relevance => "relevance"
    case Accuracy => "accuracy"
    case Completeness => "completeness"
    case Consistency => "consistency"
    case Efficiency => "efficiency"
    case Bias => "bias"
  }

  /** All six keys. */
  const Keys: set<string> :=
    {"relevance", "accuracy", "completeness", "consistency", "efficiency", "bias"}

  /** The dimension a key names. */
  function Named(key: string): (d: Dimension)
    requires key in Keys
    ensures Key(d) == key
  {
    if key == "relevance" then Relevance
    else if key == "accuracy" then Accuracy
    else if key == "completeness" then Completeness
    else if key == "consistency" then Consistency
    else if key == "efficiency" then Efficiency
    else Bias
  }

  /** Every dimension's key is one of the six and names that dimension back. */
  lemma KeyNamed(d: Dimension)
    ensures Key(d) in Keys
    ensures Named(Key(d)) == d
  {
  }

  /** A score map, as the scorer returns it and the store reads it (`Dict[str, float]`). */
  type ScoreMap = map<string, real>
}
