/** Plain facts about sequences, stated once so that proofs can call them by name. */
module Seqs {

  lemma Assoc<X>(a: seq<X>, b: seq<X>, c: seq<X>)
    ensures a + (b + c) == (a + b) + c
  {
  }

  lemma RightEmpty<X>(a: seq<X>)
    ensures a + [] == a
  {
  }

  lemma SuffixOfSum<X>(a: seq<X>, b: seq<X>, n: nat)
    requires n <= |a|
    ensures (a + b)[n..] == a[n..] + b
  {
  }

  lemma SuffixOfPrefix<X>(a: seq<X>, b: seq<X>)
    ensures (a + b)[|a|..] == b
  {
  }

  lemma CutAt<X>(a: seq<X>, n: nat)
    requires n <= |a|
    ensures a == a[..n] + a[n..]
  {
  }

  lemma CutSlice<X>(a: seq<X>, from: nat, mid: nat, to: nat)
    requires from <= mid <= to <= |a|
    ensures a[from..to][..mid - from] == a[from..mid] && a[from..to][mid - from..] == a[mid..to]
  {
  }

  lemma SuffixOfSuffix<X>(a: seq<X>, n: nat, k: nat)
    requires n <= |a| && k <= |a| - n
    ensures a[n..][|a| - n - k..] == a[|a| - k..]
  {
  }

  lemma SliceOfPrefix<X>(a: seq<X>, to: nat, i: nat, j: nat)
    requires i <= j <= to <= |a|
    ensures a[..to][i..j] == a[i..j]
  {
  }

  /** A stretch of a stretch. */
  lemma SliceOfSlice<X>(a: seq<X>, from: nat, to: nat, i: nat, j: nat)
    requires from <= to <= |a| && i <= j <= to - from
    ensures a[from..to][i..j] == a[from + i..from + j]
  {
    forall k | 0 <= k < j - i ensures a[from..to][i..j][k] == a[from + i..from + j][k] {
      assert a[from..to][i + k] == a[from + i + k];
    }
  }

  /** The parts of `a + b + c`. */
  lemma Parts<X>(a: seq<X>, b: seq<X>, c: seq<X>)
    ensures (a + b + c)[..|a|] == a
    ensures (a + b + c)[|a|..|a| + |b|] == b
    ensures (a + b + c)[|a| + |b|..] == c
  {
    assert a + b + c == a + (b + c);
  }
}
