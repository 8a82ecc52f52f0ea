/** A fact about sequence concatenation that the painting proofs chain together. */
module Strings {

  lemma AppendAssoc<T>(a: seq<T>, b: seq<T>, c: seq<T>)
    ensures (a + b) + c == a + (b + c)
  {
  }
}
