/** Sorting by a "comes before" rule, sums and filters of sequences, and what does not depend on input order. */
module Sorting {
  /** The orders passed to the source's sort calls: strict, and ties are transitive. */
  ghost predicate StrictWeakOrder<T(!new)>(less: (T, T) -> bool) {
    && (forall a: T, b: T :: less(a, b) ==> !less(b, a))
    && (forall a: T, b: T, c: T :: less(a, c) ==> less(a, b) || less(b, c))
  }

  ghost predicate Sorted<T>(less: (T, T) -> bool, s: seq<T>) {
    forall i, j | 0 <= i < j < |s| :: !less(s[j], s[i])
  }

  /** No two positions tie. */
  ghost predicate NoTies<T>(less: (T, T) -> bool, s: seq<T>) {
    forall i, j | 0 <= i < j < |s| :: less(s[i], s[j]) || less(s[j], s[i])
  }

  /** No element occurs twice. */
  predicate Distinct<T(==)>(s: seq<T>) {
    forall i, j | 0 <= i < j < |s| :: s[i] != s[j]
  }

  function Insert<T>(less: (T, T) -> bool, x: T, s: seq<T>): seq<T> {
    if s == [] || !less(s[0], x) then [x] + s else [s[0]] + Insert(less, x, s[1..])
  }

  /** A stable sort: elements that tie keep their relative order. */
  function StableSort<T>(less: (T, T) -> bool, s: seq<T>): seq<T> {
    if s == [] then [] else Insert(less, s[0], StableSort(less, s[1..]))
  }

  lemma {:induction false} InsertIsSorted<T(!new)>(less: (T, T) -> bool, x: T, s: seq<T>)
    requires StrictWeakOrder(less) && Sorted(less, s)
    ensures Sorted(less, Insert(less, x, s))
    ensures multiset(Insert(less, x, s)) == multiset{x} + multiset(s)
  {
    var r := Insert(less, x, s);
    if s != [] {
      assert s == [s[0]] + s[1..];
      if less(s[0], x) {
        var rest := Insert(less, x, s[1..]);
        InsertIsSorted(less, x, s[1..]);
        forall j | 0 < j < |r|
          ensures !less(r[j], r[0])
        {
          assert r[j] == rest[j - 1] && rest[j - 1] in multiset(rest);
          assert r[j] == x || r[j] in s[1..];
        }
      } else {
        forall j | 0 < j < |r|
          ensures !less(r[j], r[0])
        {
          assert r[j] == s[j - 1];
          assert !less(s[j - 1], s[0]);
        }
      }
    }
  }

  /** Sorting orders the elements and neither drops nor invents any. */
  lemma {:induction false} StableSortSorts<T(!new)>(less: (T, T) -> bool, s: seq<T>)
    requires StrictWeakOrder(less)
    ensures Sorted(less, StableSort(less, s))
    ensures multiset(StableSort(less, s)) == multiset(s)
  {
    if s != [] {
      assert s == [s[0]] + s[1..];
      StableSortSorts(less, s[1..]);
      InsertIsSorted(less, s[0], StableSort(less, s[1..]));
    }
  }

  lemma SamePosition<T>(s: seq<T>, x: T) returns (i: nat)
    requires x in multiset(s)
    ensures i < |s| && s[i] == x
  {
    assert x in s;
    i :| 0 <= i < |s| && s[i] == x;
  }

  lemma SortedHeadsAgree<T(!new)>(less: (T, T) -> bool, s: seq<T>, t: seq<T>)
    requires StrictWeakOrder(less)
    requires Sorted(less, s) && Sorted(less, t) && NoTies(less, s)
    requires s != [] && t != [] && multiset(s) == multiset(t)
    ensures s[0] == t[0]
  {
    assert s[0] in multiset(s) && t[0] in multiset(t);
    var i := SamePosition(t, s[0]);
    var j := SamePosition(s, t[0]);
    assert i > 0 ==> !less(t[i], t[0]);
    assert j > 0 ==> !less(s[j], s[0]);
  }

  lemma TailMultiset<T>(s: seq<T>)
    requires s != []
    ensures multiset(s[1..]) == multiset(s) - multiset{s[0]}
  {
    assert s == [s[0]] + s[1..];
  }

  lemma SortedTail<T>(less: (T, T) -> bool, s: seq<T>)
    requires s != []
    ensures Sorted(less, s) ==> Sorted(less, s[1..])
    ensures NoTies(less, s) ==> NoTies(less, s[1..])
  {
    assert forall k | 0 <= k < |s[1..]| :: s[1..][k] == s[k + 1];
  }

  /** Where no two elements tie, the sorted arrangement of a multiset is unique, however it was computed. */
  lemma {:induction false} SortedIsUnique<T(!new)>(less: (T, T) -> bool, s: seq<T>, t: seq<T>)
    requires StrictWeakOrder(less)
    requires Sorted(less, s) && Sorted(less, t) && NoTies(less, s)
    requires multiset(s) == multiset(t)
    ensures s == t
  {
    assert |multiset(s)| == |s| && |multiset(t)| == |t|;
    if s != [] {
      SortedHeadsAgree(less, s, t);
      assert s[1..] == t[1..] by {
        assert multiset(s[1..]) == multiset(t[1..]) by {
          TailMultiset(s);
          TailMultiset(t);
        }
        SortedTail(less, s);
        SortedTail(less, t);
        SortedIsUnique(less, s[1..], t[1..]);
      }
      assert s == [s[0]] + s[1..] && t == [t[0]] + t[1..];
    }
  }

  // ---------- sums and filters ----------

  lemma AppendAssociates<T>(a: seq<T>, b: seq<T>, c: seq<T>)
    ensures a + (b + c) == (a + b) + c
  {
  }

  ghost function SumBy<T(!new)>(f: T -> real, s: seq<T>): real {
    if s == [] then 0.0 else f(s[0]) + SumBy(f, s[1..])
  }

  lemma {:induction false} SumBySplit<T(!new)>(f: T -> real, s: seq<T>, i: nat)
    requires i < |s|
    ensures SumBy(f, s) == f(s[i]) + SumBy(f, s[..i] + s[i + 1..])
  {
    if i > 0 {
      SumBySplit(f, s[1..], i - 1);
      assert (s[..i] + s[i + 1..])[1..] == s[1..][..i - 1] + s[1..][i..];
    } else {
      assert s[..0] + s[1..] == s[1..];
    }
  }

  lemma RemoveAt<T>(s: seq<T>, i: nat)
    requires i < |s|
    ensures multiset(s[..i] + s[i + 1..]) == multiset(s) - multiset{s[i]}
  {
    assert s == s[..i] + [s[i]] + s[i + 1..];
  }

  /** A sum does not depend on the order of its terms. */
  lemma {:induction false} SumByPermutation<T(!new)>(f: T -> real, s: seq<T>, t: seq<T>)
    requires multiset(s) == multiset(t)
    ensures SumBy(f, s) == SumBy(f, t)
    decreases |s|
  {
    assert |multiset(s)| == |s| && |multiset(t)| == |t|;
    if s != [] {
      assert s[0] in multiset(t);
      var i := SamePosition(t, s[0]);
      SumBySplit(f, t, i);
      RemoveAt(t, i);
      assert s == [s[0]] + s[1..];
      assert multiset(s[1..]) == multiset(s) - multiset{s[0]};
      SumByPermutation(f, s[1..], t[..i] + t[i + 1..]);
    }
  }

  function Filter<T>(keep: T -> bool, s: seq<T>): seq<T> {
    if s == [] then [] else (if keep(s[0]) then [s[0]] else []) + Filter(keep, s[1..])
  }

  lemma {:induction false} FilterCount<T>(keep: T -> bool, s: seq<T>, x: T)
    ensures multiset(Filter(keep, s))[x] == if keep(x) then multiset(s)[x] else 0
  {
    if s != [] {
      FilterCount(keep, s[1..], x);
      assert s == [s[0]] + s[1..];
    }
  }

  lemma FilterPermutation<T(!new)>(keep: T -> bool, s: seq<T>, t: seq<T>)
    requires multiset(s) == multiset(t)
    ensures multiset(Filter(keep, s)) == multiset(Filter(keep, t))
  {
    forall x: T
      ensures multiset(Filter(keep, s))[x] == multiset(Filter(keep, t))[x]
    {
      FilterCount(keep, s, x);
      FilterCount(keep, t, x);
    }
  }

  lemma {:induction false} FilterAppend<T>(keep: T -> bool, s: seq<T>, x: T)
    ensures Filter(keep, s + [x]) == Filter(keep, s) + (if keep(x) then [x] else [])
  {
    if s != [] {
      FilterAppend(keep, s[1..], x);
      assert (s + [x])[1..] == s[1..] + [x];
    }
  }
}
