/** Sizes of finite sets, as the termination and fuel arguments need them. */
module Finite {
  /** A strict subset has fewer elements. */
  lemma SubsetSmaller<T>(a: set<T>, b: set<T>, x: T)
    requires a <= b && x in b && x !in a
    ensures |a| < |b|
  {
    assert b == a + (b - a);
    assert a * (b - a) == {};
    assert x in b - a;
  }

  /** A sequence without repeats drawn from s is no longer than s has elements. */
  lemma {:induction false} DistinctFits<T>(p: seq<T>, s: set<T>)
    requires forall i, j :: 0 <= i < j < |p| ==> p[i] != p[j]
    requires forall k :: 0 <= k < |p| ==> p[k] in s
    ensures |p| <= |s|
  {
    if p != [] {
      var rest := s - {p[0]};
      forall k | 0 <= k < |p[1..]|
        ensures p[1..][k] in rest
      {
        assert p[1..][k] == p[k + 1] != p[0];
      }
      DistinctFits(p[1..], rest);
    }
  }
}
