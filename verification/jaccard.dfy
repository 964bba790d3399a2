/** The Jaccard similarity of two sets, as the set-based kNN and item-to-item algorithms
    compute it from bitmap cardinalities: intersection size over union size, and 0 when
    the sets share nothing. */
module Jaccard {

  function Similarity(a: set<int>, b: set<int>): (r: real)
    ensures 0.0 <= r <= 1.0
    ensures r > 0.0 <==> a * b != {}
    ensures r == 1.0 <==> a * b != {} && a == b
  {
    if |a * b| == 0 then 0.0
    else
      UnionSplit(a, b);
      assert |a * b| == |a + b| ==> a == b by {
        if |a * b| == |a + b| {
          assert (a + b) - (a * b) == {};
        }
      }
      (|a * b| as real) / (|a + b| as real)
  }

  /** The union is the intersection plus what only one side has. */
  lemma UnionSplit(a: set<int>, b: set<int>)
    ensures |a + b| == |a * b| + |(a + b) - (a * b)|
  {
    var both := a * b;
    var one := (a + b) - both;
    assert both + one == a + b;
    assert both * one == {};
  }

  lemma Symmetric(a: set<int>, b: set<int>)
    ensures Similarity(a, b) == Similarity(b, a)
  {
    assert a * b == b * a && a + b == b + a;
  }
}
