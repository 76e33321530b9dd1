/** Facts about sequence slices, each proved once in a small context. */
module Seqs {

  /** The prefix of length `i + 1` is the prefix of length `i` and one more element. */
  lemma PrefixSnoc<T>(xs: seq<T>, i: int)
    requires 0 <= i < |xs|
    ensures xs[..i + 1] == xs[..i] + [xs[i]]
  {
  }

  /** Dropping the last element of `xs + [x]` gives back `xs`. */
  lemma InitOfSnoc<T>(xs: seq<T>, x: T)
    ensures (xs + [x])[..|xs|] == xs
  {
  }

  /** A non-empty sequence is its prefix without the last element and that element. */
  lemma SplitLast<T>(xs: seq<T>)
    requires xs != []
    ensures xs == xs[..|xs| - 1] + [xs[|xs| - 1]]
  {
  }

  /** The prefix as long as the sequence is the sequence. */
  lemma TakeAll<T>(xs: seq<T>)
    ensures xs[..|xs|] == xs
  {
  }
}
