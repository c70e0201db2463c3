// Facts about slices of sequences, stated once for any element type so that
// proofs about sequences of large records need not compare those records.

module Sequences {
  /** A prefix grows by the next element. */
  lemma PrefixStep<T>(s: seq<T>, k: nat)
    requires k < |s|
    ensures s[..k + 1] == s[..k] + [s[k]]
  {
  }

  /** A slice grows by the element after it. */
  lemma SliceGrows<T>(s: seq<T>, lo: nat, hi: nat)
    requires lo <= hi < |s|
    ensures s[lo..hi + 1] == s[lo..hi] + [s[hi]]
  {
  }

  /** Writing position `j` and keeping the prefix through it. */
  lemma PrefixGrows<T>(s: seq<T>, j: nat, x: T)
    requires j < |s|
    ensures s[j := x][..j + 1] == s[..j] + [x]
  {
  }

  /** A sequence is the part before `i`, element `i`, and the part after. */
  lemma SplitAt<T>(b: seq<T>, i: nat)
    requires i < |b|
    ensures b == b[..i] + [b[i]] + b[i + 1..]
  {
  }
}
