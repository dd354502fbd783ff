/** A small fact about sequences, kept apart so that proofs about the engine's
    functions can use it without re-deriving it in a large context. */
module Seqs {

  /** Splitting off the first element of the second operand. */
  lemma AppendHead<T>(a: seq<T>, p: seq<T>)
    requires p != []
    ensures a + p == (a + [p[0]]) + p[1..]
  {
    assert p == [p[0]] + p[1..];
  }
}
