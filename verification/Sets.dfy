/** Counting with finite sets of numbers. */
module Sets {

  function Upto(n: nat): (s: set<nat>)
    ensures |s| == n && forall x: int :: x in s <==> 0 <= x < n
  {
    if n == 0 then {} else Upto(n - 1) + {n - 1}
  }

  lemma SubsetFull(a: set<nat>, b: set<nat>)
    requires a <= b
    ensures |a| <= |b| && (|a| == |b| <==> a == b)
  {
    assert b == a + (b - a) && |b| == |a| + |b - a|;
  }
}
