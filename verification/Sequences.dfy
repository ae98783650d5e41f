/** Facts about sequences that several modules use. */
module Sequences {

  ghost predicate Distinct<T>(s: seq<T>) {
    forall i, j | 0 <= i < j < |s| :: s[i] != s[j]
  }

  lemma Regroup<T>(a: seq<T>, b: seq<T>, c: seq<T>)
    ensures (a + b) + c == a + (b + c)
    ensures a + [] == a
  {
  }

  /** The parts of a slice are slices. */
  lemma SplitSlice<T>(s: seq<T>, i: nat, j: nat, k: nat)
    requires i <= j <= k <= |s|
    ensures s[i..k][..j - i] == s[i..j] && s[i..k][j - i..] == s[j..k]
    ensures s[i..k] == s[i..j] + s[j..k]
  {
  }

  lemma SliceOfSlice<T>(s: seq<T>, i: nat, k: nat, a: nat, b: nat)
    requires i <= k <= |s| && a <= b <= k - i
    ensures s[i..k][a..b] == s[i + a..i + b]
  {
    assert forall j | 0 <= j < b - a :: s[i..k][a..b][j] == s[i..k][a + j] == s[i + a + j];
  }

  /** Where a sum of sequences stands, its parts stand. */
  lemma SliceOfSum<T>(s: seq<T>, i: nat, k: nat, a: seq<T>, b: seq<T>)
    requires i <= k <= |s| && s[i..k] == a + b
    ensures i + |a| <= k && s[i..i + |a|] == a && s[i + |a|..k] == b
  {
    assert |s[i..k]| == |a| + |b|;
    SplitSlice(s, i, i + |a|, k);
    assert (a + b)[..|a|] == a && (a + b)[|a|..] == b;
  }

  lemma SameBehind<T>(a: seq<T>, b: seq<T>, c: seq<T>)
    ensures a + b == a + c <==> b == c
  {
    assert b == (a + b)[|a|..] && c == (a + c)[|a|..];
  }
}
