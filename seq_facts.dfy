/** Small facts about sequences shared by the loop proofs. */
module SeqFacts {
  /** Growing a prefix by one element. */
  lemma PrefixSnoc<T>(s: seq<T>, i: int)
    requires 0 <= i < |s|
    ensures s[..i + 1] == s[..i] + [s[i]]
  {
  }
}
