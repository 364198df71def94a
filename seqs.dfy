/** Small facts about slicing and concatenating sequences, stated once so that proofs can cite them. */
module Sequences {

  /** A sequence of two or more elements is its first two elements followed by the rest. */
  lemma SplitPair<T>(d: seq<T>)
    requires |d| >= 2
    ensures d == [d[0]] + ([d[1]] + d[2..])
  {
  }

  /** A non-empty sequence is its head followed by its tail. */
  lemma HeadTail<T>(d: seq<T>)
    requires d != []
    ensures d == [d[0]] + d[1..]
  {
  }

  /** Concatenation regroups. */
  lemma AppendAssoc<T>(a: seq<T>, b: seq<T>, c: seq<T>)
    ensures a + b + c == a + (b + c)
  {
  }

  /** The two halves of a concatenation are found again by slicing at the seam. */
  lemma AppendParts<T>(a: seq<T>, b: seq<T>)
    ensures (a + b)[..|a|] == a && (a + b)[|a|..] == b
  {
  }

  /** A sequence of three or more elements is its first three elements followed by the rest. */
  lemma SplitThree<T>(d: seq<T>)
    requires |d| >= 3
    ensures d == [d[0], d[1], d[2]] + d[3..]
  {
  }

  /** The parts of a sequence that starts with `x` and `y`. */
  lemma PairParts<T>(x: T, y: T, r: seq<T>)
    ensures var s := [x, y] + r; |s| == |r| + 2 && s[0] == x && s[1] == y && s[2..] == r
  {
  }

  /** Six or more elements: the first six are the first four followed by elements 4 and 5. */
  lemma SplitSix<T>(d: seq<T>)
    requires |d| >= 6
    ensures d[..6] == d[..4] + [d[4], d[5]]
  {
  }

  /** How the prefixes of length 2, 4 and 6 nest. */
  lemma PrefixFacts<T>(d: seq<T>)
    requires |d| >= 4
    ensures d[..4][..2] == d[..2]
    ensures |d| >= 6 ==> d[..6][..4] == d[..4] && d[..6][4] == d[4] && d[..6][5] == d[5]
  {
  }

  /** What a sequence lacks, its prefixes lack too. */
  lemma NotInPrefix<T>(d: seq<T>, n: nat, c: T)
    requires n <= |d| && c !in d
    ensures c !in d[..n]
  {
  }

  /** Slicing a concatenation inside its first part. */
  lemma SplitAt<T>(a: seq<T>, t: seq<T>, n: nat)
    requires n <= |a|
    ensures (a + t)[..n] == a[..n] && (a + t)[n..] == a[n..] + t
  {
  }

  /** A prefix of a suffix is a middle slice. */
  lemma SliceOfSuffix<T>(s: seq<T>, i: nat, m: nat)
    requires i + m <= |s|
    ensures s[i..][..m] == s[i..i + m]
  {
  }
}
