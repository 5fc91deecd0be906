/** Slices of slices. */
module Slices {

  lemma SliceOfSlice<T>(s: seq<T>, a: nat, b: nat, c: nat, d: nat)
    requires c <= d && a + d <= b <= |s|
    ensures s[a..b][c..d] == s[a + c..a + d]
  {
    forall k | 0 <= k < d - c
      ensures s[a..b][c..d][k] == s[a + c..a + d][k]
    {
      assert s[a..b][c + k] == s[a + (c + k)];
    }
  }

  /** Sequences with a common prefix have the slices inside it in common. */
  lemma SameFront<T>(s: seq<T>, t: seq<T>, n: nat, a: nat, b: nat)
    requires a <= b <= n <= |s| && n <= |t| && s[..n] == t[..n]
    ensures s[a..b] == t[a..b]
  {
    SliceOfSlice(s, 0, n, a, b);
    SliceOfSlice(t, 0, n, a, b);
  }

  /** The same for a common suffix. */
  lemma SameBack<T>(s: seq<T>, t: seq<T>, n: nat, a: nat, b: nat)
    requires n <= a <= b <= |s| == |t| && s[n..] == t[n..]
    ensures s[a..b] == t[a..b]
  {
    SliceOfSlice(s, n, |s|, a - n, b - n);
    SliceOfSlice(t, n, |t|, a - n, b - n);
  }
}
