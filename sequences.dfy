/** Small facts about sequences shared by the text and the collocation modules. */
module Sequences {

  /** `pat` occurs in `s` as the slice that starts at index `i`. */
  predicate OccursAt<T(==)>(s: seq<T>, pat: seq<T>, i: nat)
  {
    i + |pat| <= |s| && s[i..i + |pat|] == pat
  }

  /** Concatenation is associative; stated once so that long proofs can name the regrouping. */
  lemma AppendAssoc<T>(x: seq<T>, y: seq<T>, z: seq<T>)
    ensures (x + y) + z == x + (y + z)
  {
  }
}
