// Small facts about sequence concatenation shared by the other modules.

module Sequences {
  /** Concatenation is associative; stated once so that proofs about long
      concatenations can regroup them cheaply. */
  lemma AppendAssoc<T>(a: seq<T>, b: seq<T>, c: seq<T>)
    ensures a + b + c == a + (b + c)
  {
  }

  /** Indexing into the middle part of a three-part concatenation. */
  lemma IndexInMiddle<T>(a: seq<T>, b: seq<T>, c: seq<T>, j: nat)
    requires j < |b|
    ensures |a| + j < |a + b + c| && (a + b + c)[|a| + j] == b[j]
  {
  }
}
