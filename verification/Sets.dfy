/** The sizes of finite sets. */
module Sets {

  lemma DisjointUnion(A: set<nat>, B: set<nat>)
    requires A !! B
    ensures |A + B| == |A| + |B|
  {}

  lemma SubsetSize(A: set<nat>, B: set<nat>)
    requires A <= B
    ensures |A| <= |B| && |B - A| == |B| - |A| && (|A| == |B| ==> A == B)
  {
    assert B == A + (B - A);
  }
}
