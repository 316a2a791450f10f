/** Facts about windows of sequences that the codec proofs use repeatedly. */
module Slices {

  lemma SliceOfSlice<T>(s: seq<T>, a: nat, b: nat, c: nat, d: nat)
    requires a <= b <= |s| && c <= d <= b - a
    ensures s[a..b][c..d] == s[a + c .. a + d]
  {
    assert forall k :: 0 <= k < d - c ==> s[a..b][c..d][k] == s[a..b][c + k] == s[a + c + k];
  }

  lemma SliceOfConcatLeft<T>(x: seq<T>, y: seq<T>, a: nat, b: nat)
    requires a <= b <= |x|
    ensures (x + y)[a..b] == x[a..b]
  {
  }

  lemma SliceOfConcatRight<T>(x: seq<T>, y: seq<T>, a: nat, b: nat)
    requires a <= b <= |y|
    ensures (x + y)[|x| + a .. |x| + b] == y[a..b]
  {
  }

  /** A window holding `x + y` splits into a window holding `x` followed by
      one holding `y`. */
  lemma SplitWindow<T>(s: seq<T>, pos: nat, x: seq<T>, y: seq<T>)
    requires pos + |x| + |y| <= |s| && s[pos .. pos + |x| + |y|] == x + y
    ensures s[pos .. pos + |x|] == x
    ensures s[pos + |x| .. pos + |x| + |y|] == y
  {
    SliceOfSlice(s, pos, pos + |x| + |y|, 0, |x|);
    SliceOfSlice(s, pos, pos + |x| + |y|, |x|, |x| + |y|);
    SliceOfConcatLeft(x, y, 0, |x|);
    SliceOfConcatRight(x, y, 0, |y|);
  }
}
