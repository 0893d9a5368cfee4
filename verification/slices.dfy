/**
 Facts about concatenation and slices that the byte formats lean on.
 */
module Slices {

  lemma DropFront<T>(a: seq<T>, b: seq<T>)
    ensures (a + b)[|a|..] == b && (a + b)[..|a|] == a
  {
  }

  lemma Associates<T>(a: seq<T>, b: seq<T>, c: seq<T>)
    ensures (a + b) + c == a + (b + c)
  {
  }

  lemma SliceOfSlice<T>(s: seq<T>, p: nat, e: nat, i: nat, j: nat)
    requires p <= e <= |s| && i <= j <= e - p
    ensures s[p..e][i..j] == s[p + i..p + j]
  {
    var whole := s[p..e];
    assert forall k | 0 <= k < j - i :: whole[i..j][k] == whole[i + k] == s[p + i + k] == s[p + i..p + j][k];
  }

  /** A prefix made of two parts. */
  lemma TwoParts<T>(a: seq<T>, b: seq<T>, s: seq<T>)
    requires a + b <= s
    ensures s[..|a|] == a && s[|a|..|a| + |b|] == b && s == a + s[|a|..]
  {
    assert forall i | 0 <= i < |a| + |b| :: s[i] == (a + b)[i];
  }

  /** Where the parts of a slice lie in the whole. */
  lemma PartsOfSlice<T>(a: seq<T>, b: seq<T>, s: seq<T>, p: nat, e: nat)
    requires p <= e <= |s| && a + b <= s[p..e]
    ensures p + |a| + |b| <= e
    ensures s[p..p + |a|] == a && s[p + |a|..p + |a| + |b|] == b && s[p..e] == a + s[p + |a|..e]
  {
    TwoParts(a, b, s[p..e]);
    SliceOfSlice(s, p, e, 0, |a|);
    SliceOfSlice(s, p, e, |a|, |a| + |b|);
    SliceOfSlice(s, p, e, |a|, e - p);
    assert s[p..e][|a|..] == s[p..e][|a|..e - p];
  }

  /** A slice split at any place. */
  lemma SplitSlice<T>(s: seq<T>, p: nat, q: nat, e: nat)
    requires p <= q <= e <= |s|
    ensures s[p..e] == s[p..q] + s[q..e]
  {
  }

  lemma OneMore<T>(s: seq<T>, i: nat)
    requires i < |s|
    ensures s[..i + 1] == s[..i] + [s[i]] && s[i] in s
  {
  }
}
