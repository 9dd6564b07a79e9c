/** Counting by distinct values. */
module Counting {
  lemma SomeMember<T>(s: set<T>) returns (x: T)
    requires s != {}
    ensures x in s
  {
    x :| x in s;
  }

  /** Positions with pairwise different values in a range are no more than the range is long. */
  lemma {:induction false} InjectionFits(indices: set<int>, value: int -> int, lo: int, hi: int)
    requires lo <= hi && (forall i | i in indices :: lo <= value(i) < hi)
    requires forall i, j | i in indices && j in indices :: value(i) == value(j) ==> i == j
    ensures |indices| <= hi - lo
    decreases hi - lo
  {
    if indices != {} {
      var some := SomeMember(indices);
      assert lo <= value(some) < hi;
      if top :| top in indices && value(top) == hi - 1 {
        InjectionFits(indices - {top}, value, lo, hi - 1);
      } else {
        InjectionFits(indices, value, lo, hi - 1);
      }
    }
  }
}
