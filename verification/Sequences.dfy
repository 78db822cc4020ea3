/** Slices of slices: the few facts about parts of a buffer that the methods need
    after a call has changed another part of it. */
module Sequences {

  lemma SubSlice<T>(s: seq<T>, lo: nat, hi: nat, i: nat, j: nat)
    requires lo <= hi <= |s| && i <= j <= hi - lo
    ensures s[lo..hi][i..j] == s[lo + i..lo + j]
  {
    var t := s[lo..hi];
    forall k | 0 <= k < j - i
      ensures t[i..j][k] == s[lo + i..lo + j][k]
    {
      assert t[i + k] == s[lo + i + k];
    }
  }

  lemma SplitSlice<T>(s: seq<T>, a: nat, b: nat, c: nat)
    requires a <= b <= c <= |s|
    ensures s[a..c] == s[a..b] + s[b..c]
  {
  }

  lemma WholePrefix<T>(s: seq<T>, a: nat, b: nat)
    requires a <= b <= |s|
    ensures s[..b] == s[..a] + s[a..b]
  {
  }

  /** Equal prefixes agree on every part. */
  lemma KeptBefore<T>(s: seq<T>, t: seq<T>, n: nat, i: nat, j: nat)
    requires i <= j <= n <= |s| && n <= |t| && s[..n] == t[..n]
    ensures s[i..j] == t[i..j] && s[..j] == t[..j]
    ensures i < n ==> s[i] == t[i]
  {
    forall k | 0 <= k < n
      ensures s[k] == t[k]
    {
      assert s[..n][k] == t[..n][k];
    }
  }

  /** Equal suffixes agree on every part. */
  lemma KeptAfter<T>(s: seq<T>, t: seq<T>, n: nat, i: nat, j: nat)
    requires n <= i <= j <= |s| == |t| && s[n..] == t[n..]
    ensures s[i..j] == t[i..j] && s[j..] == t[j..]
    ensures i < |s| ==> s[i] == t[i]
  {
    forall k | n <= k < |s|
      ensures s[k] == t[k]
    {
      assert s[n..][k - n] == t[n..][k - n];
    }
  }

  /** Three parts make the whole. */
  lemma ThreeParts<T>(s: seq<T>, t: seq<T>, a: nat, b: nat)
    requires a <= b <= |t| <= |s|
    requires s[..a] == t[..a] && s[a..b] == t[a..b] && s[b..|t|] == t[b..]
    ensures s[..|t|] == t
  {
    var n := |t|;
    assert s[..n] == s[..a] + s[a..b] + s[b..n];
    assert t == t[..a] + t[a..b] + t[b..];
  }

  lemma SliceIs<T>(s: seq<T>, at: nat, t: seq<T>)
    requires at + |t| <= |s| && forall j :: at <= j < at + |t| ==> s[j] == t[j - at]
    ensures s[at..at + |t|] == t
  {
    forall k | 0 <= k < |t|
      ensures s[at..at + |t|][k] == t[k]
    {
      assert s[at + k] == t[at + k - at];
    }
  }

  /** Equal at every position outside [lo, hi). */
  ghost predicate SameOutside<T>(s: seq<T>, t: seq<T>, lo: nat, hi: nat) {
    |s| == |t| && forall k :: 0 <= k < |s| && !(lo <= k < hi) ==> t[k] == s[k]
  }

  lemma OutsideParts<T>(s: seq<T>, t: seq<T>, lo: nat, hi: nat)
    requires lo <= hi <= |s| == |t| && s[..lo] == t[..lo] && s[hi..] == t[hi..]
    ensures SameOutside(s, t, lo, hi)
  {
    forall k | 0 <= k < |s| && !(lo <= k < hi)
      ensures t[k] == s[k]
    {
      if k < lo {
        KeptBefore(s, t, lo, k, k);
      } else {
        KeptAfter(s, t, hi, k, k);
      }
    }
  }

  lemma OutsideBoth<T>(s: seq<T>, t: seq<T>, u: seq<T>, lo: nat, mid: nat, hi: nat)
    requires lo <= mid <= hi && SameOutside(s, t, lo, mid) && SameOutside(t, u, mid, hi)
    ensures SameOutside(s, u, lo, hi)
  {
  }

  lemma SliceAt<T>(s: seq<T>, i: nat, j: nat, k: nat)
    requires i <= k < j <= |s|
    ensures s[k] == s[i..j][k - i]
  {
  }
}
