/** Duplicate detection is sound, complete and independent of input order and of the order in which classes are visited. */
module DuplicateReport {
  import opened Ledger
  import opened Sorting
  import opened StringOrder
  import opened Duplicates
  import opened DuplicateWindows

  /** `g` reports `run`: at least two transactions of one class, all within the window, in time order. */
  ghost predicate Describes(g: Group, run: seq<Transaction>, members: seq<Transaction>, window: int) {
    && |run| >= 2 && multiset(run) <= multiset(members)
    && Within(run, window) && Sorted(ByTime(), run)
    && multiset(g.ids) == multiset(Ids(run)) && Sorted(TextOrder(), g.ids)
    && g.kind == run[0].kind && g.amount == run[0].sourceAmount
    && g.first == run[0].occurredAt && g.last == run[|run| - 1].occurredAt
  }

  ghost predicate ReportsFrom(g: Group, members: seq<Transaction>, window: int) {
    exists run :: Describes(g, run, members, window)
  }

  // ---------- members of concatenations ----------

  lemma {:induction false} FlatMapMember<A(!new), B>(f: A -> seq<B>, s: seq<A>, y: B)
    ensures y in FlatMap(f, s) <==> exists x | x in s :: y in f(x)
  {
    if s != [] {
      FlatMapMember(f, s[1..], y);
      assert s == [s[0]] + s[1..];
      assert forall x :: x in s <==> x == s[0] || x in s[1..];
    }
  }

  lemma {:induction false} FlatMapConcat<A, B>(f: A -> seq<B>, s: seq<A>, t: seq<A>)
    ensures FlatMap(f, s + t) == FlatMap(f, s) + FlatMap(f, t)
  {
    if s == [] {
      assert s + t == t;
    } else {
      FlatMapConcat(f, s[1..], t);
      assert (s + t)[1..] == s[1..] + t;
    }
  }

  lemma {:induction false} FlatMapSplit<A, B>(f: A -> seq<B>, s: seq<A>, i: nat)
    requires i < |s|
    ensures multiset(FlatMap(f, s)) == multiset(f(s[i])) + multiset(FlatMap(f, s[..i] + s[i + 1..]))
  {
    FlatMapConcat(f, s[..i], s[i..]);
    FlatMapConcat(f, s[..i], s[i + 1..]);
    assert s == s[..i] + s[i..] && s[i..][1..] == s[i + 1..];
  }

  lemma {:induction false} FlatMapPermutation<A, B>(f: A -> seq<B>, s: seq<A>, t: seq<A>)
    requires multiset(s) == multiset(t)
    ensures multiset(FlatMap(f, s)) == multiset(FlatMap(f, t))
    decreases |s|
  {
    assert |multiset(s)| == |s| && |multiset(t)| == |t|;
    if s != [] {
      assert s[0] in multiset(t);
      var i := SamePosition(t, s[0]);
      FlatMapSplit(f, t, i);
      RemoveAt(t, i);
      TailMultiset(s);
      FlatMapPermutation(f, s[1..], t[..i] + t[i + 1..]);
    }
  }

  lemma {:induction false} GroupsOfMember(runs: seq<seq<Transaction>>, g: Group)
    ensures g in GroupsOf(runs) <==> exists run: seq<Transaction> | run in runs :: |run| >= 2 && g == GroupOf(run)
  {
    if runs != [] {
      GroupsOfMember(runs[1..], g);
      assert runs == [runs[0]] + runs[1..];
      assert forall run: seq<Transaction> :: run in runs <==> run == runs[0] || run in runs[1..];
    }
  }

  lemma {:induction false} FlattenContains<T(!new)>(less: (T, T) -> bool, runs: seq<seq<T>>, run: seq<T>)
    requires run in runs && Sorted(less, Flatten(runs))
    ensures multiset(run) <= multiset(Flatten(runs)) && Sorted(less, run)
  {
    var head, rest := runs[0], Flatten(runs[1..]);
    assert Sorted(less, head) && Sorted(less, rest) by {
      forall i, j | 0 <= i < j < |head| ensures !less(head[j], head[i]) {
        assert !less(Flatten(runs)[j], Flatten(runs)[i]);
      }
      forall i, j | 0 <= i < j < |rest| ensures !less(rest[j], rest[i]) {
        assert !less(Flatten(runs)[|head| + j], Flatten(runs)[|head| + i]);
      }
    }
    if run != head {
      FlattenContains(less, runs[1..], run);
    }
  }

  // ---------- sound and complete ----------

  lemma RunIsDescribed(cls: seq<Transaction>, arranged: seq<Transaction>, run: seq<Transaction>, window: int)
    requires window >= 0 && Sorted(ByTime(), arranged) && multiset(arranged) == multiset(cls)
    requires run in Windows(arranged, window) && |run| >= 2
    ensures Describes(GroupOf(run), run, cls, window)
  {
    SortedByTimeIsTimeSorted(arranged);
    WindowsPartition(arranged, window);
    FlattenContains(ByTime(), Windows(arranged, window), run);
    TextOrderIsStrictWeak();
    StableSortSorts(TextOrder(), Ids(run));
  }

  lemma ReportMember(txs: seq<Transaction>, window: int, normalize: string -> string,
                     order: seq<Signature>, arranged: map<Signature, seq<Transaction>>, groups: seq<Group>, g: Group)
    requires window >= 0 && ReportVia(txs, window, normalize, order, arranged, groups)
    ensures g in groups <==> exists sig | sig in arranged :: g in GroupsOf(Windows(arranged[sig], window))
  {
    var all := FlatMap(ClassGroups(arranged, window), order);
    assert g in groups <==> g in multiset(groups);
    assert g in all <==> g in multiset(all);
    FlatMapMember(ClassGroups(arranged, window), order, g);
    forall sig | sig in arranged
      ensures ClassGroups(arranged, window)(sig) == GroupsOf(Windows(arranged[sig], window))
    {
    }
  }

  lemma GroupIsSoundVia(txs: seq<Transaction>, window: int, normalize: string -> string,
                          order: seq<Signature>, arranged: map<Signature, seq<Transaction>>, groups: seq<Group>, g: Group)
    requires window >= 0 && ReportVia(txs, window, normalize, order, arranged, groups) && g in groups
    ensures exists sig | sig in Signatures(txs, normalize) :: ReportsFrom(g, ClassOf(txs, sig, normalize), window)
  {
    ReportMember(txs, window, normalize, order, arranged, groups, g);
    var sig :| sig in arranged && g in GroupsOf(Windows(arranged[sig], window));
    GroupsOfMember(Windows(arranged[sig], window), g);
    var run: seq<Transaction> :| run in Windows(arranged[sig], window) && |run| >= 2 && g == GroupOf(run);
    RunIsDescribed(ClassOf(txs, sig, normalize), arranged[sig], run, window);
    assert ReportsFrom(g, ClassOf(txs, sig, normalize), window);
  }

  lemma DescribedMeansClose(g: Group, run: seq<Transaction>, members: seq<Transaction>, window: int)
    requires Describes(g, run, members, window)
    ensures TwoClose(members, window)
  {
    SortedByTimeIsTimeSorted(run);
    TwoInMultiset(run, 0, 1);
    var i, j := TwoPositions(members, run[0], run[1]);
    assert 0 <= members[j].occurredAt - members[i].occurredAt <= window;
  }

  lemma {:induction false} FilterMember<T>(keep: T -> bool, s: seq<T>, x: T)
    ensures x in Filter(keep, s) <==> keep(x) && x in s
  {
    FilterCount(keep, s, x);
    assert x in Filter(keep, s) <==> x in multiset(Filter(keep, s));
    assert x in s <==> x in multiset(s);
  }

  lemma CloseClassIsReported(members: seq<Transaction>, arranged: seq<Transaction>, window: int) returns (g: Group)
    requires window >= 0 && Sorted(ByTime(), arranged) && multiset(arranged) == multiset(members)
    requires TwoClose(members, window)
    ensures g in GroupsOf(Windows(arranged, window)) && ReportsFrom(g, members, window)
  {
    TwoClosePermutation(members, arranged, window);
    SortedByTimeIsTimeSorted(arranged);
    CloseGivesGroup(arranged, window);
    var run: seq<Transaction> :| run in Windows(arranged, window) && |run| >= 2;
    g := GroupOf(run);
    GroupsOfMember(Windows(arranged, window), g);
    RunIsDescribed(members, arranged, run, window);
  }

  lemma ClassIsPresent(txs: seq<Transaction>, normalize: string -> string, sig: Signature)
    requires ClassOf(txs, sig, normalize) != []
    ensures sig in Signatures(txs, normalize)
  {
    FilterMember(InClass(sig, normalize), txs, ClassOf(txs, sig, normalize)[0]);
  }

  lemma ClassReportedVia(txs: seq<Transaction>, window: int, normalize: string -> string, order: seq<Signature>,
                                 arranged: map<Signature, seq<Transaction>>, groups: seq<Group>, sig: Signature)
    requires window >= 0 && ReportVia(txs, window, normalize, order, arranged, groups)
    ensures (exists g | g in groups :: ReportsFrom(g, ClassOf(txs, sig, normalize), window))
            <==> TwoClose(ClassOf(txs, sig, normalize), window)
  {
    var members := ClassOf(txs, sig, normalize);
    if g :| g in groups && ReportsFrom(g, members, window) {
      var run :| Describes(g, run, members, window);
      DescribedMeansClose(g, run, members, window);
    }
    if TwoClose(members, window) {
      ClassIsPresent(txs, normalize, sig);
      var g := CloseClassIsReported(members, arranged[sig], window);
      ReportMember(txs, window, normalize, order, arranged, groups, g);
    }
  }

  // ---------- no transaction in two groups ----------

  function GroupIds(): Group -> seq<string> {
    (g: Group) => g.ids
  }

  function ClassMembers(arranged: map<Signature, seq<Transaction>>): Signature -> seq<Transaction> {
    (sig: Signature) => if sig in arranged then arranged[sig] else []
  }

  lemma IdsConcat(s: seq<Transaction>, t: seq<Transaction>)
    ensures Ids(s + t) == Ids(s) + Ids(t)
  {
  }

  lemma {:induction false} GroupIdsWithinRuns(runs: seq<seq<Transaction>>)
    ensures multiset(FlatMap(GroupIds(), GroupsOf(runs))) <= multiset(Ids(Flatten(runs)))
  {
    if runs != [] {
      GroupIdsWithinRuns(runs[1..]);
      IdsConcat(runs[0], Flatten(runs[1..]));
      if |runs[0]| >= 2 {
        var g := GroupOf(runs[0]);
        TextOrderIsStrictWeak();
        StableSortSorts(TextOrder(), Ids(runs[0]));
        assert ([g] + GroupsOf(runs[1..]))[1..] == GroupsOf(runs[1..]);
      } else {
        assert GroupsOf(runs) == GroupsOf(runs[1..]);
      }
    }
  }

  lemma {:induction false} GroupIdsWithinClasses(arranged: map<Signature, seq<Transaction>>, order: seq<Signature>, window: int)
    requires window >= 0 && forall sig | sig in arranged :: Sorted(ByTime(), arranged[sig])
    ensures multiset(FlatMap(GroupIds(), FlatMap(ClassGroups(arranged, window), order)))
            <= multiset(Ids(FlatMap(ClassMembers(arranged), order)))
  {
    if order != [] {
      GroupIdsWithinClasses(arranged, order[1..], window);
      var sig := order[0];
      var here := ClassGroups(arranged, window)(sig);
      FlatMapConcat(GroupIds(), here, FlatMap(ClassGroups(arranged, window), order[1..]));
      IdsConcat(ClassMembers(arranged)(sig), FlatMap(ClassMembers(arranged), order[1..]));
      if sig in arranged {
        SortedByTimeIsTimeSorted(arranged[sig]);
        WindowsPartition(arranged[sig], window);
        GroupIdsWithinRuns(Windows(arranged[sig], window));
      }
    }
  }

  lemma DistinctTail<T>(s: seq<T>)
    requires s != [] && Distinct(s)
    ensures Distinct(s[1..]) && s[0] !in s[1..] && forall x :: x in s <==> x == s[0] || x in s[1..]
  {
    assert forall i, j | 0 <= i < j < |s[1..]| :: s[1..][i] == s[i + 1] && s[1..][j] == s[j + 1];
    assert s == [s[0]] + s[1..];
  }

  lemma {:induction false} ClassesAreDisjoint(txs: seq<Transaction>, normalize: string -> string, order: seq<Signature>,
                                              arranged: map<Signature, seq<Transaction>>, x: Transaction)
    requires Distinct(order)
    requires forall sig | sig in arranged :: multiset(arranged[sig]) == multiset(ClassOf(txs, sig, normalize))
    ensures multiset(FlatMap(ClassMembers(arranged), order))[x]
            <= if SignatureOf(x, normalize) in order then multiset(txs)[x] else 0
  {
    if order != [] {
      var sig := order[0];
      DistinctTail(order);
      ClassesAreDisjoint(txs, normalize, order[1..], arranged, x);
      FilterCount(InClass(sig, normalize), txs, x);
    }
  }

  lemma IdsRemove(s: seq<Transaction>, i: nat)
    requires i < |s|
    ensures multiset(Ids(s)) == multiset{s[i].id} + multiset(Ids(s[..i] + s[i + 1..]))
  {
    assert Ids(s[..i] + s[i + 1..]) == Ids(s)[..i] + Ids(s)[i + 1..];
    RemoveAt(Ids(s), i);
    assert Ids(s)[i] in multiset(Ids(s));
  }

  lemma {:induction false} IdsMonotone(s: seq<Transaction>, t: seq<Transaction>)
    requires multiset(s) <= multiset(t)
    ensures multiset(Ids(s)) <= multiset(Ids(t))
    decreases |s|
  {
    if s != [] {
      assert s == [s[0]] + s[1..];
      assert multiset(t)[s[0]] >= multiset(s)[s[0]] >= 1;
      var i := SamePosition(t, s[0]);
      var rest := t[..i] + t[i + 1..];
      RemoveAt(t, i);
      TailMultiset(s);
      IdsMonotone(s[1..], rest);
      IdsRemove(s, 0);
      assert s[..0] + s[1..] == s[1..];
      IdsRemove(t, i);
    } else {
      assert Ids(s) == [];
    }
  }

  lemma MembersWithinInput(txs: seq<Transaction>, normalize: string -> string, order: seq<Signature>,
                           arranged: map<Signature, seq<Transaction>>)
    requires Distinct(order) && ArrangesClasses(arranged, txs, normalize)
    ensures multiset(FlatMap(ClassMembers(arranged), order)) <= multiset(txs)
  {
    forall x: Transaction
      ensures multiset(FlatMap(ClassMembers(arranged), order))[x] <= multiset(txs)[x]
    {
      ClassesAreDisjoint(txs, normalize, order, arranged, x);
    }
  }

  lemma GroupsAreDisjointVia(txs: seq<Transaction>, window: int, normalize: string -> string,
                          order: seq<Signature>, arranged: map<Signature, seq<Transaction>>, groups: seq<Group>)
    requires window >= 0 && ReportVia(txs, window, normalize, order, arranged, groups)
    ensures multiset(FlatMap(GroupIds(), groups)) <= multiset(Ids(txs))
  {
    FlatMapPermutation(GroupIds(), groups, FlatMap(ClassGroups(arranged, window), order));
    GroupIdsWithinClasses(arranged, order, window);
    MembersWithinInput(txs, normalize, order, arranged);
    IdsMonotone(FlatMap(ClassMembers(arranged), order), txs);
  }

  // ---------- independent of order ----------

  predicate UniqueIds(txs: seq<Transaction>) {
    forall id | id in Ids(txs) :: multiset(Ids(txs))[id] == 1
  }

  lemma TwoUniqueIds(txs: seq<Transaction>, a: string, b: string)
    requires UniqueIds(txs) && multiset{a, b} <= multiset(Ids(txs))
    ensures a != b
  {
    assert multiset{a, b}[a] >= 1;
    assert a in multiset(Ids(txs));
    assert a == b ==> multiset{a, b}[a] == 2;
  }

  lemma HeadsDiffer(txs: seq<Transaction>, a: seq<string>, b: seq<string>)
    requires UniqueIds(txs) && a != [] && b != []
    requires multiset(a) + multiset(b) <= multiset(Ids(txs))
    ensures a[0] != b[0]
  {
    assert a[0] in multiset(a) && b[0] in multiset(b);
    assert a[0] in multiset(a) + multiset(b);
    assert a[0] in multiset(Ids(txs));
    assert (multiset(a) + multiset(b))[a[0]] <= 1;
  }

  lemma SubsequenceIds(s: seq<Transaction>, txs: seq<Transaction>)
    requires UniqueIds(txs) && multiset(s) <= multiset(txs)
    ensures NoTies(ByTime(), s)
  {
    IdsMonotone(s, txs);
    forall i, j | 0 <= i < j < |s|
      ensures ByTime()(s[i], s[j]) || ByTime()(s[j], s[i])
    {
      TwoInMultiset(Ids(s), i, j);
      TwoUniqueIds(txs, s[i].id, s[j].id);
      TextTotal(s[i].id, s[j].id);
    }
  }

  lemma {:induction false} FlatMapTwo<A, B>(f: A -> seq<B>, s: seq<A>, i: nat, j: nat)
    requires i < j < |s|
    ensures multiset(f(s[i])) + multiset(f(s[j])) <= multiset(FlatMap(f, s))
  {
    FlatMapSplit(f, s, i);
    FlatMapSplit(f, s[..i] + s[i + 1..], j - 1);
  }

  lemma GroupsDoNotTie(txs: seq<Transaction>, groups: seq<Group>)
    requires UniqueIds(txs) && multiset(FlatMap(GroupIds(), groups)) <= multiset(Ids(txs))
    requires forall g | g in groups :: g.ids != []
    ensures NoTies(ByStart(), groups)
  {
    forall i, j | 0 <= i < j < |groups|
      ensures ByStart()(groups[i], groups[j]) || ByStart()(groups[j], groups[i])
    {
      FlatMapTwo(GroupIds(), groups, i, j);
      HeadsDiffer(txs, groups[i].ids, groups[j].ids);
      TextTotal(HeadId(groups[i]), HeadId(groups[j]));
    }
  }

  lemma GroupHasIds(g: Group, members: seq<Transaction>, window: int)
    requires ReportsFrom(g, members, window)
    ensures g.ids != []
  {
    var run :| Describes(g, run, members, window);
    assert |multiset(g.ids)| == |g.ids| && |multiset(Ids(run))| == |Ids(run)|;
  }

  lemma {:induction false} DistinctSameMembers<T>(s: seq<T>, t: seq<T>)
    requires Distinct(s) && Distinct(t) && forall x :: x in s <==> x in t
    ensures multiset(s) == multiset(t)
  {
    forall x: T
      ensures multiset(s)[x] == multiset(t)[x]
    {
      DistinctCount(s, x);
      DistinctCount(t, x);
    }
  }

  lemma {:induction false} DistinctCount<T>(s: seq<T>, x: T)
    requires Distinct(s)
    ensures multiset(s)[x] == if x in s then 1 else 0
  {
    if s != [] {
      DistinctTail(s);
      DistinctCount(s[1..], x);
      assert s == [s[0]] + s[1..];
    }
  }

  lemma SameArrangement(txs: seq<Transaction>, other: seq<Transaction>, normalize: string -> string, sig: Signature,
                        s: seq<Transaction>, t: seq<Transaction>)
    requires UniqueIds(txs) && multiset(txs) == multiset(other)
    requires Sorted(ByTime(), s) && multiset(s) == multiset(ClassOf(txs, sig, normalize))
    requires Sorted(ByTime(), t) && multiset(t) == multiset(ClassOf(other, sig, normalize))
    ensures s == t
  {
    FilterPermutation(InClass(sig, normalize), txs, other);
    forall x: Transaction
      ensures multiset(s)[x] <= multiset(txs)[x]
    {
      FilterCount(InClass(sig, normalize), txs, x);
    }
    SubsequenceIds(s, txs);
    OrdersAreStrictWeak();
    SortedIsUnique(ByTime(), s, t);
  }

  lemma SameSignatures(txs: seq<Transaction>, other: seq<Transaction>, normalize: string -> string)
    requires multiset(txs) == multiset(other)
    ensures Signatures(txs, normalize) == Signatures(other, normalize)
  {
    forall tx: Transaction
      ensures tx in txs <==> tx in other
    {
      assert tx in txs <==> tx in multiset(txs);
      assert tx in other <==> tx in multiset(other);
    }
  }

  lemma SameArrangements(txs: seq<Transaction>, other: seq<Transaction>, normalize: string -> string,
                         arranged: map<Signature, seq<Transaction>>, arranged2: map<Signature, seq<Transaction>>)
    requires UniqueIds(txs) && multiset(txs) == multiset(other)
    requires ArrangesClasses(arranged, txs, normalize) && ArrangesClasses(arranged2, other, normalize)
    ensures arranged == arranged2
  {
    SameSignatures(txs, other, normalize);
    forall sig | sig in arranged
      ensures arranged[sig] == arranged2[sig]
    {
      SameArrangement(txs, other, normalize, sig, arranged[sig], arranged2[sig]);
    }
  }

  lemma SameGroups(arranged: map<Signature, seq<Transaction>>, window: int, order: seq<Signature>, order2: seq<Signature>)
    requires window >= 0 && Enumerates(order, arranged.Keys) && Enumerates(order2, arranged.Keys)
    ensures multiset(FlatMap(ClassGroups(arranged, window), order)) == multiset(FlatMap(ClassGroups(arranged, window), order2))
  {
    DistinctSameMembers(order, order2);
    FlatMapPermutation(ClassGroups(arranged, window), order, order2);
  }

  lemma SameReportVia(txs: seq<Transaction>, other: seq<Transaction>, window: int, normalize: string -> string,
                           order: seq<Signature>, arranged: map<Signature, seq<Transaction>>, groups: seq<Group>,
                           order2: seq<Signature>, arranged2: map<Signature, seq<Transaction>>, groups2: seq<Group>)
    requires window >= 0 && UniqueIds(txs) && multiset(txs) == multiset(other)
    requires ReportVia(txs, window, normalize, order, arranged, groups)
    requires ReportVia(other, window, normalize, order2, arranged2, groups2)
    ensures groups == groups2
  {
    assert NoTies(ByStart(), groups) by {
      GroupsAreDisjointVia(txs, window, normalize, order, arranged, groups);
      forall g | g in groups
        ensures g.ids != []
      {
        GroupIsSoundVia(txs, window, normalize, order, arranged, groups, g);
        var sig :| sig in Signatures(txs, normalize) && ReportsFrom(g, ClassOf(txs, sig, normalize), window);
        GroupHasIds(g, ClassOf(txs, sig, normalize), window);
      }
      GroupsDoNotTie(txs, groups);
    }
    SameArrangements(txs, other, normalize, arranged, arranged2);
    SameGroups(arranged, window, order, order2);
    OrdersAreStrictWeak();
    SortedIsUnique(ByStart(), groups, groups2);
  }

  // ---------- what every report guarantees ----------

  /** Sound: every reported group is two or more transactions of one signature within the window. */
  lemma EveryGroupIsSound(txs: seq<Transaction>, window: int, normalize: string -> string, groups: seq<Group>, g: Group)
    requires window >= 0 && IsReport(txs, window, normalize, groups) && g in groups
    ensures exists sig | sig in Signatures(txs, normalize) :: ReportsFrom(g, ClassOf(txs, sig, normalize), window)
  {
    var order, arranged :| ReportVia(txs, window, normalize, order, arranged, groups);
    GroupIsSoundVia(txs, window, normalize, order, arranged, groups, g);
  }

  /** Sound and complete per class: some group reports from a class exactly when two of its transactions are close. */
  lemma ClassReportedIffTwoClose(txs: seq<Transaction>, window: int, normalize: string -> string, groups: seq<Group>, sig: Signature)
    requires window >= 0 && IsReport(txs, window, normalize, groups)
    ensures (exists g | g in groups :: ReportsFrom(g, ClassOf(txs, sig, normalize), window))
            <==> TwoClose(ClassOf(txs, sig, normalize), window)
  {
    var order, arranged :| ReportVia(txs, window, normalize, order, arranged, groups);
    ClassReportedVia(txs, window, normalize, order, arranged, groups, sig);
  }

  /** Groups are disjoint: over all groups together no id appears more often than it does in the input. */
  lemma GroupsAreDisjoint(txs: seq<Transaction>, window: int, normalize: string -> string, groups: seq<Group>)
    requires window >= 0 && IsReport(txs, window, normalize, groups)
    ensures multiset(FlatMap(GroupIds(), groups)) <= multiset(Ids(txs))
  {
    var order, arranged :| ReportVia(txs, window, normalize, order, arranged, groups);
    GroupsAreDisjointVia(txs, window, normalize, order, arranged, groups);
  }

  /** With unique ids the report depends only on which transactions there are: not on their order, the map's or the sort's. */
  lemma ReportIgnoresOrder(txs: seq<Transaction>, other: seq<Transaction>, window: int, normalize: string -> string,
                           groups: seq<Group>, groups2: seq<Group>)
    requires window >= 0 && UniqueIds(txs) && multiset(txs) == multiset(other)
    requires IsReport(txs, window, normalize, groups) && IsReport(other, window, normalize, groups2)
    ensures groups == groups2
  {
    var order, arranged :| ReportVia(txs, window, normalize, order, arranged, groups);
    var order2, arranged2 :| ReportVia(other, window, normalize, order2, arranged2, groups2);
    SameReportVia(txs, other, window, normalize, order, arranged, groups, order2, arranged2, groups2);
  }
}
