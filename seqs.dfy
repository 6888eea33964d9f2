/** Facts about sequence slices that the verifier does not find on its own. */
module Seqs {

  /** A slice of a slice is a slice of the original sequence. */
  lemma SliceOfSlice<T>(s: seq<T>, a: int, b: int, i: int, j: int)
    requires 0 <= a <= b <= |s| && 0 <= i <= j <= b - a
    ensures s[a..b][i..j] == s[a + i..a + j]
  {
    var w := s[a..b];
    forall k | 0 <= k < j - i ensures w[i..j][k] == s[a + i..a + j][k] {
      assert w[i..j][k] == w[i + k];
      assert w[i + k] == s[a + i + k];
    }
  }

  /** A sequence is what comes before position `k`, the element at `k`, and what comes after it. */
  lemma AroundIndex<T>(s: seq<T>, k: int)
    requires 0 <= k < |s|
    ensures s == s[..k] + [s[k]] + s[k + 1..]
  {
  }

  /** The last element split off a sequence that was built by appending it. */
  lemma Snoc<T>(a: seq<T>, x: T)
    ensures (a + [x])[..|a|] == a && (a + [x])[|a|] == x && a + [x] != []
  {
  }

  /** Taking one more element of `b` after `a`. */
  lemma TakeSnoc<T>(a: seq<T>, b: seq<T>, n: nat)
    requires n < |b|
    ensures a + b[..n + 1] == (a + b[..n]) + [b[n]]
    ensures b[..n + 1] == b[..n] + [b[n]]
  {
  }

  /** Taking none and taking all of `b` after `a`. */
  lemma TakeNoneAll<T>(a: seq<T>, b: seq<T>)
    ensures a + b[..0] == a && a + b[..|b|] == a + b
    ensures b[..0] == [] && b[..|b|] == b
  {
  }
}
