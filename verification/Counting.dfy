/**
 Sets that grow by one element at a time, counted along.
 */
module Counting {
  lemma OneMore<T(!new)>(before: set<T>, after: set<T>, t: T)
    requires t !in before && after - {t} == before
    ensures |after| == |before| + if t in after then 1 else 0
  {
    assert after == if t in after then before + {t} else before;
  }
}
