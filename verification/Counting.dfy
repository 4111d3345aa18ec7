// Counting finite sets.
module Counting {
  lemma {:induction false} Pigeons<T>(w: set<T>, q: seq<T>)
    requires forall t :: t in w ==> t in q
    ensures |w| <= |q|
  {
    if q == [] {
      assert w == {};
    } else {
      Pigeons(w - {q[0]}, q[1..]);
      assert |w - {q[0]}| >= |w| - 1;
    }
  }

  ghost function Range(lo: nat, hi: nat): (s: set<nat>)
    requires lo <= hi
    ensures |s| == hi - lo && forall f :: f in s <==> lo <= f < hi
    decreases hi - lo
  {
    if lo == hi then {} else {hi - 1} + Range(lo, hi - 1)
  }

  lemma SubsetSize<T>(a: set<T>, b: set<T>)
    requires a <= b
    ensures |a| <= |b| && (|a| == |b| ==> a == b)
  {
    assert b == a + (b - a);
  }

  lemma OneMore<T>(s: set<T>, x: T)
    ensures |s + {x}| == |s| + if x in s then 0 else 1
  {
    assert x in s ==> s + {x} == s;
  }
}
