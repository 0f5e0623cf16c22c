/** Small facts about finite sets that the loops over table keys and directory listings use. */
module Sets {

  /** The size of a union of disjoint sets. */
  lemma DisjointUnionSize<T>(a: set<T>, b: set<T>)
    requires a !! b
    ensures |a + b| == |a| + |b|
  {
  }

  /** A subset is no larger than the set. */
  lemma SubsetSize<T>(a: set<T>, b: set<T>)
    requires a <= b
    ensures |a| <= |b|
  {
    assert b == a + (b - a);
    DisjointUnionSize(a, b - a);
  }

  /** Moving one element from the pending part of `all` to the handled part. */
  lemma MoveToDone<T>(all: set<T>, done: set<T>, todo: set<T>, x: T)
    requires todo <= all && done == all - todo && x in todo
    ensures todo - {x} <= all && done + {x} == all - (todo - {x})
  {
  }
}
