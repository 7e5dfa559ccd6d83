/** Facts about sequences shared by the colour pipeline, the strip and the
    discovery logs. */
module Sequences {

  /** Concatenation regroups freely. */
  lemma AppendAssociative<T>(a: seq<T>, b: seq<T>, c: seq<T>)
    ensures a + b + c == a + (b + c)
  {
  }
}
