/** Facts about slicing and concatenating sequences, stated once for every
    element type so that the proofs about strings and rows can cite them. */
module Seqs {
  /** A non-empty sequence is its front followed by its last element. */
  lemma LastSplit<T>(s: seq<T>)
    requires s != []
    ensures s == s[..|s| - 1] + [s[|s| - 1]]
  {
  }

  /** The prefix of length `k + 1` is the one of length `k` and one element. */
  lemma PrefixSnoc<T>(s: seq<T>, k: nat)
    requires k < |s|
    ensures s[..k + 1] == s[..k] + [s[k]]
  {
  }

  /** A sequence cut at `n` and glued back is itself. */
  lemma SplitAt<T>(s: seq<T>, n: nat)
    requires n <= |s|
    ensures s[..n] + s[n..] == s
  {
  }

  /** The head and tail of a concatenation with a non-empty front. */
  lemma ConsTail<T>(p: seq<T>, a: seq<T>)
    requires p != []
    ensures (p + a)[0] == p[0] && (p + a)[1..] == p[1..] + a
  {
  }

  /** Concatenation is associative. */
  lemma Assoc<T>(a: seq<T>, b: seq<T>, c: seq<T>)
    ensures a + b + c == a + (b + c)
  {
  }

  /** The empty sequence is a right unit of concatenation. */
  lemma AppendEmpty<T>(a: seq<T>)
    ensures a + [] == a
  {
  }
}
