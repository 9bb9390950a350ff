/**
 Slices of slices, proved once and element by element.
 */
module Slices {

  /** A slice of a slice is a slice. */
  lemma SliceOfSlice<T>(s: seq<T>, lo: nat, hi: nat, i: nat, j: nat)
    requires lo <= hi <= |s| && i <= j <= hi - lo
    ensures s[lo..hi][i..j] == s[lo + i..lo + j]
  {
    var a, b := s[lo..hi][i..j], s[lo + i..lo + j];
    assert |a| == |b|;
    forall k | 0 <= k < |a| ensures a[k] == b[k] {}
  }

  lemma SliceOfTail<T>(s: seq<T>, lo: nat, i: nat, j: nat)
    requires lo <= |s| && i <= j <= |s| - lo
    ensures s[lo..][i..j] == s[lo + i..lo + j]
  {
    assert s[lo..] == s[lo..|s|];
    SliceOfSlice(s, lo, |s|, i, j);
  }

  lemma TailOfTail<T>(s: seq<T>, lo: nat, i: nat)
    requires lo + i <= |s|
    ensures s[lo..][i..] == s[lo + i..]
  {
    var a, b := s[lo..][i..], s[lo + i..];
    assert |a| == |b|;
    forall k | 0 <= k < |a| ensures a[k] == b[k] {}
  }

  /** Two sequences that agree from `lo` on agree on every slice above `lo`. */
  lemma SameSlice<T>(s: seq<T>, t: seq<T>, lo: nat, i: nat, j: nat)
    requires |s| == |t| && lo <= i <= j <= |s| && s[lo..] == t[lo..]
    ensures s[i..j] == t[i..j]
  {
    SliceOfTail(s, lo, i - lo, j - lo);
    SliceOfTail(t, lo, i - lo, j - lo);
  }

  lemma SameTail<T>(s: seq<T>, t: seq<T>, lo: nat, i: nat)
    requires |s| == |t| && lo <= i <= |s| && s[lo..] == t[lo..]
    ensures s[i..] == t[i..]
  {
    TailOfTail(s, lo, i - lo);
    TailOfTail(t, lo, i - lo);
  }

  /** One more element of `s` in front of the rest. */
  lemma PrefixGrows<T>(s: seq<T>, n: nat, rest: seq<T>)
    requires n < |s|
    ensures s[..n + 1] + rest == s[..n] + ([s[n]] + rest)
  {
    var a, b := s[..n + 1] + rest, s[..n] + ([s[n]] + rest);
    assert |a| == |b|;
    forall k | 0 <= k < |a| ensures a[k] == b[k] {}
  }
}
