/** Cardinality facts shared by the models. */
module Sets {

  /** A subset is as large as the whole exactly when it is the whole. */
  lemma SubsetSize<T>(a: set<T>, b: set<T>)
    requires a <= b
    ensures |a| <= |b| && (|a| == |b| <==> a == b)
  {
    assert b == a + (b - a);
    assert |b| == |a| + |b - a|;
  }

  function One(b: bool): nat { if b then 1 else 0 }

  /** A set in which the membership of one element is decided anew. */
  lemma Redecide<T>(a: set<T>, b: set<T>, x: T, inB: bool)
    requires b == if inB then a + {x} else a - {x}
    ensures |b| == |a| - One(x in a) + One(inB)
    ensures One(x in a) <= |a|
  {}

  lemma DisjointRoom<T>(a: set<T>, b: set<T>, c: set<T>)
    requires a !! b && a <= c && b <= c
    ensures |a| + |b| <= |c|
  {
    assert |a + b| == |a| + |b|;
    SubsetSize(a + b, c);
  }
}
