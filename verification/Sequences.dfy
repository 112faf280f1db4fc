/** Slicing facts the verifier needs spelled out. */
module Sequences {

  lemma SliceMiddle<T>(a: seq<T>, b: seq<T>, c: seq<T>, i: nat, j: nat)
    requires i <= j <= |b|
    ensures (a + b + c)[|a| + i..|a| + j] == b[i..j]
  {}

  lemma SubSlice<T>(s: seq<T>, offset: nat, t: seq<T>, i: nat, j: nat)
    requires offset + |t| <= |s| && s[offset..offset + |t|] == t && i <= j <= |t|
    ensures s[offset + i..offset + j] == t[i..j]
  {
    forall k | 0 <= k < j - i
      ensures s[offset + i..offset + j][k] == t[i..j][k]
    {
      assert s[offset..offset + |t|][i + k] == t[i + k];
    }
  }

  lemma SliceSplit<T>(s: seq<T>, i: nat, j: nat, k: nat)
    requires i <= j <= k <= |s|
    ensures s[i..k] == s[i..j] + s[j..k]
  {}

  lemma SplitPrefix<T>(s: seq<T>, i: nat, k: nat, t: seq<T>)
    requires i <= k <= i + |t| <= |s| && s[i..i + |t|] == t
    ensures s[..k] == s[..i] + t[..k - i]
  {
    SubSlice(s, i, t, 0, k - i);
  }

  lemma Associate<T>(a: seq<T>, b: seq<T>, c: seq<T>)
    ensures a + b + c == a + (b + c)
  {}
}
