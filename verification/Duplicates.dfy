/** Duplicate detection: transactions with one signature, cut into greedy time windows. */
module Duplicates {
  import opened Results
  import opened Money
  import opened Ledger
  import opened Sorting
  import opened StringOrder

  datatype Signature = Signature(
    kind: TransactionType,
    categoryId: string,
    sourceId: string,
    destinationId: string,
    sourceAmount: Money,
    destinationAmount: Option<Money>,
    comment: string)

  datatype Group = Group(ids: seq<string>, kind: TransactionType, amount: Money, first: int, last: int)

  // ---------- classes ----------

  predicate Considered(tx: Transaction) {
    tx.kind.Income? || tx.kind.Expense? || tx.kind.Transfer?
  }

  /** `normalize` stands for trimming and lower-casing a comment. */
  function SignatureOf(tx: Transaction, normalize: string -> string): Signature {
    Signature(tx.kind, tx.categoryId, tx.sourceAccountId, tx.destinationAccountId, tx.sourceAmount, tx.destinationAmount,
              normalize(tx.comment))
  }

  function InClass(sig: Signature, normalize: string -> string): Transaction -> bool {
    (tx: Transaction) => Considered(tx) && SignatureOf(tx, normalize) == sig
  }

  function ClassOf(txs: seq<Transaction>, sig: Signature, normalize: string -> string): seq<Transaction> {
    Filter(InClass(sig, normalize), txs)
  }

  predicate Earlier(a: Transaction, b: Transaction) {
    if a.occurredAt != b.occurredAt then a.occurredAt < b.occurredAt else TextLess(a.id, b.id)
  }

  function ByTime(): (Transaction, Transaction) -> bool {
    (a: Transaction, b: Transaction) => Earlier(a, b)
  }

  predicate GroupLess(a: Group, b: Group) {
    if a.first != b.first then a.first < b.first else TextLess(HeadId(a), HeadId(b))
  }

  function HeadId(g: Group): string {
    if g.ids == [] then "" else g.ids[0]
  }

  function ByStart(): (Group, Group) -> bool {
    (a: Group, b: Group) => GroupLess(a, b)
  }

  lemma OrdersAreStrictWeak()
    ensures StrictWeakOrder(ByTime()) && StrictWeakOrder(ByStart())
  {
    TextOrderIsStrictWeak();
    assert forall a: string, b: string :: TextOrder()(a, b) == TextLess(a, b);
  }

  // ---------- greedy windows ----------

  /** How many transactions from the start lie within `window` of `start`. */
  function Span(txs: seq<Transaction>, start: int, window: int): nat
    ensures Span(txs, start, window) <= |txs|
  {
    if txs == [] || txs[0].occurredAt - start > window then 0 else 1 + Span(txs[1..], start, window)
  }

  /** The greedy cut of a time-sorted class: each window opens at the first transaction not yet covered. */
  function Windows(txs: seq<Transaction>, window: int): seq<seq<Transaction>>
    requires window >= 0
    decreases |txs|
  {
    if txs == [] then []
    else
      var n := Span(txs, txs[0].occurredAt, window);
      [txs[..n]] + Windows(txs[n..], window)
  }

  function Ids(txs: seq<Transaction>): seq<string> {
    seq(|txs|, i requires 0 <= i < |txs| => txs[i].id)
  }

  function GroupOf(run: seq<Transaction>): Group
    requires run != []
  {
    Group(StableSort(TextOrder(), Ids(run)), run[0].kind, run[0].sourceAmount, run[0].occurredAt, run[|run| - 1].occurredAt)
  }

  /** Only windows with at least two transactions are reported. */
  function GroupsOf(runs: seq<seq<Transaction>>): seq<Group> {
    if runs == [] then []
    else (if |runs[0]| >= 2 then [GroupOf(runs[0])] else []) + GroupsOf(runs[1..])
  }

  /** The inner loop: one past the last transaction within `window` of the one at `start`. */
  method WindowEnd(txs: seq<Transaction>, start: nat, window: int) returns (end: nat)
    requires start < |txs| && window >= 0
    ensures start < end <= |txs| && end == start + Span(txs[start..], txs[start].occurredAt, window)
  {
    end := start + 1;
    while end < |txs| && txs[end].occurredAt - txs[start].occurredAt <= window
      invariant start < end <= |txs|
      invariant Span(txs[start..], txs[start].occurredAt, window) == end - start + Span(txs[end..], txs[start].occurredAt, window)
    {
      end := end + 1;
    }
  }

  lemma {:induction false} CutStep(txs: seq<Transaction>, start: nat, end: nat, window: int)
    requires start < end <= |txs| && window >= 0
    requires end == start + Span(txs[start..], txs[start].occurredAt, window)
    ensures GroupsOf(Windows(txs[start..], window))
            == (if end - start >= 2 then [GroupOf(txs[start..end])] else []) + GroupsOf(Windows(txs[end..], window))
  {
    var run, rest := txs[start..end], Windows(txs[end..], window);
    assert txs[start..][..end - start] == run && txs[start..][end - start..] == txs[end..];
    assert Windows(txs[start..], window) == [run] + rest;
    assert ([run] + rest)[1..] == rest;
  }

  /** The outer loop: each group opens where the previous window ended. */
  method CutIntoGroups(txs: seq<Transaction>, window: int) returns (groups: seq<Group>)
    requires window >= 0
    ensures groups == GroupsOf(Windows(txs, window))
  {
    groups := [];
    var start := 0;
    while start < |txs|
      invariant 0 <= start <= |txs|
      invariant GroupsOf(Windows(txs, window)) == groups + GroupsOf(Windows(txs[start..], window))
    {
      var end := WindowEnd(txs, start, window);
      CutStep(txs, start, end, window);
      var found := if end - start >= 2 then [GroupOf(txs[start..end])] else [];
      AppendAssociates(groups, found, GroupsOf(Windows(txs[end..], window)));
      groups, start := groups + found, end;
    }
  }

  // ---------- the detector ----------

  /** Any arrangement a sort by time and id may leave. */
  method SortByTime(txs: seq<Transaction>) returns (s: seq<Transaction>)
    ensures Sorted(ByTime(), s) && multiset(s) == multiset(txs)
  {
    OrdersAreStrictWeak();
    StableSortSorts(ByTime(), txs);
    s := StableSort(ByTime(), txs);
  }

  method SortByStart(groups: seq<Group>) returns (s: seq<Group>)
    ensures Sorted(ByStart(), s) && multiset(s) == multiset(groups)
  {
    OrdersAreStrictWeak();
    StableSortSorts(ByStart(), groups);
    s := StableSort(ByStart(), groups);
  }

  function Signatures(txs: seq<Transaction>, normalize: string -> string): set<Signature> {
    set tx | tx in txs && Considered(tx) :: SignatureOf(tx, normalize)
  }

  function FlatMap<A, B>(f: A -> seq<B>, s: seq<A>): seq<B> {
    if s == [] then [] else f(s[0]) + FlatMap(f, s[1..])
  }

  function ClassGroups(arranged: map<Signature, seq<Transaction>>, window: int): Signature -> seq<Group>
    requires window >= 0
  {
    (sig: Signature) => if sig in arranged then GroupsOf(Windows(arranged[sig], window)) else []
  }

  /** Every class of `txs` sorted by time and id. */
  ghost predicate ArrangesClasses(arranged: map<Signature, seq<Transaction>>, txs: seq<Transaction>, normalize: string -> string) {
    && arranged.Keys == Signatures(txs, normalize)
    && forall sig | sig in arranged ::
         Sorted(ByTime(), arranged[sig]) && multiset(arranged[sig]) == multiset(ClassOf(txs, sig, normalize))
  }

  ghost predicate Enumerates<T(!new)>(order: seq<T>, all: set<T>) {
    Distinct(order) && forall x :: x in order <==> x in all
  }

  /** The classes in the given order, each arranged by time and id and cut greedily, and all groups sorted by start. */
  ghost predicate ReportVia(txs: seq<Transaction>, window: int, normalize: string -> string,
                            order: seq<Signature>, arranged: map<Signature, seq<Transaction>>, groups: seq<Group>)
    requires window >= 0
  {
    && Enumerates(order, arranged.Keys) && ArrangesClasses(arranged, txs, normalize)
    && Sorted(ByStart(), groups)
    && multiset(groups) == multiset(FlatMap(ClassGroups(arranged, window), order))
  }

  /** `classes` files every considered transaction of `txs` under its signature, in input order. */
  ghost predicate Files(classes: map<Signature, seq<Transaction>>, txs: seq<Transaction>, normalize: string -> string) {
    && classes.Keys == Signatures(txs, normalize)
    && forall sig | sig in classes :: classes[sig] == ClassOf(txs, sig, normalize)
  }

  function File(classes: map<Signature, seq<Transaction>>, sig: Signature, tx: Transaction): map<Signature, seq<Transaction>> {
    classes[sig := (if sig in classes then classes[sig] else []) + [tx]]
  }

  lemma {:induction false} NoMembersOutside(txs: seq<Transaction>, normalize: string -> string, sig: Signature)
    requires sig !in Signatures(txs, normalize)
    ensures ClassOf(txs, sig, normalize) == []
  {
    if txs != [] {
      assert txs == [txs[0]] + txs[1..];
      assert txs[0] in txs;
      NoMembersOutside(txs[1..], normalize, sig);
    }
  }

  lemma FilingStep(classes: map<Signature, seq<Transaction>>, txs: seq<Transaction>, tx: Transaction, normalize: string -> string)
    requires Files(classes, txs, normalize)
    ensures Files(if Considered(tx) then File(classes, SignatureOf(tx, normalize), tx) else classes, txs + [tx], normalize)
  {
    var after := if Considered(tx) then File(classes, SignatureOf(tx, normalize), tx) else classes;
    forall t: Transaction
      ensures t in txs + [tx] <==> t in txs || t == tx
    {
    }
    assert after.Keys == Signatures(txs + [tx], normalize);
    forall sig | sig in after
      ensures after[sig] == ClassOf(txs + [tx], sig, normalize)
    {
      FilterAppend(InClass(sig, normalize), txs, tx);
      if sig !in classes {
        NoMembersOutside(txs, normalize, sig);
      }
    }
  }

  method ClassesOf(txs: seq<Transaction>, normalize: string -> string) returns (classes: map<Signature, seq<Transaction>>)
    ensures Files(classes, txs, normalize)
  {
    classes := map[];
    for k := 0 to |txs|
      invariant Files(classes, txs[..k], normalize)
    {
      var tx := txs[k];
      assert txs[..k + 1] == txs[..k] + [tx];
      FilingStep(classes, txs[..k], tx, normalize);
      if !Considered(tx) {
        continue;
      }
      classes := File(classes, SignatureOf(tx, normalize), tx);
    }
    assert txs[..|txs|] == txs;
  }

  lemma {:induction false} FlatMapAppend<A, B>(f: A -> seq<B>, s: seq<A>, x: A)
    ensures FlatMap(f, s + [x]) == FlatMap(f, s) + f(x)
  {
    if s != [] {
      FlatMapAppend(f, s[1..], x);
      assert (s + [x])[1..] == s[1..] + [x];
    }
  }

  lemma {:induction false} FlatMapSame<A(!new), B>(f: A -> seq<B>, g: A -> seq<B>, s: seq<A>)
    requires forall x | x in s :: f(x) == g(x)
    ensures FlatMap(f, s) == FlatMap(g, s)
  {
    if s != [] {
      FlatMapSame(f, g, s[1..]);
    }
  }

  /** A further class adds its groups behind those of the classes already visited. */
  lemma {:induction false} OneMoreClass(arranged: map<Signature, seq<Transaction>>, order: seq<Signature>, window: int,
                                        sig: Signature, sorted: seq<Transaction>)
    requires window >= 0 && sig !in order
    ensures FlatMap(ClassGroups(arranged[sig := sorted], window), order + [sig])
            == FlatMap(ClassGroups(arranged, window), order) + GroupsOf(Windows(sorted, window))
  {
    FlatMapSame(ClassGroups(arranged, window), ClassGroups(arranged[sig := sorted], window), order);
    FlatMapAppend(ClassGroups(arranged[sig := sorted], window), order, sig);
  }

  ghost predicate Arranges(arranged: map<Signature, seq<Transaction>>, classes: map<Signature, seq<Transaction>>) {
    forall sig | sig in arranged ::
      sig in classes && Sorted(ByTime(), arranged[sig]) && multiset(arranged[sig]) == multiset(classes[sig])
  }

  lemma EnumerateNext<T(!new)>(order: seq<T>, all: set<T>, todo: set<T>, x: T)
    requires Enumerates(order, all - todo) && x in todo && todo <= all
    ensures Enumerates(order + [x], all - (todo - {x}))
  {
  }

  /** Classes are visited in whatever order the map yields them. */
  method CollectGroups(classes: map<Signature, seq<Transaction>>, window: int)
    returns (groups: seq<Group>, ghost order: seq<Signature>, ghost arranged: map<Signature, seq<Transaction>>)
    requires window >= 0
    ensures Enumerates(order, classes.Keys)
    ensures arranged.Keys == classes.Keys && Arranges(arranged, classes)
    ensures groups == FlatMap(ClassGroups(arranged, window), order)
  {
    groups, order, arranged := [], [], map[];
    var todo := classes.Keys;
    while todo != {}
      invariant todo <= classes.Keys
      invariant Enumerates(order, classes.Keys - todo)
      invariant arranged.Keys == classes.Keys - todo && Arranges(arranged, classes)
      invariant groups == FlatMap(ClassGroups(arranged, window), order)
    {
      var sig :| sig in todo;
      var sorted := SortByTime(classes[sig]);
      EnumerateNext(order, classes.Keys, todo, sig);
      OneMoreClass(arranged, order, window, sig, sorted);
      if |sorted| >= 2 {
        var found := CutIntoGroups(sorted, window);
        groups := groups + found;
      } else {
        SmallClassHasNoGroups(sorted, window);
      }
      order, arranged, todo := order + [sig], arranged[sig := sorted], todo - {sig};
    }
  }

  /** A report: whatever order the classes are visited in and whatever the sorts do with ties. */
  ghost predicate IsReport(txs: seq<Transaction>, window: int, normalize: string -> string, groups: seq<Group>)
    requires window >= 0
  {
    exists order: seq<Signature>, arranged: map<Signature, seq<Transaction>> ::
      ReportVia(txs, window, normalize, order, arranged, groups)
  }

  method DuplicateGroups(txs: seq<Transaction>, window: int, normalize: string -> string) returns (groups: seq<Group>)
    requires window >= 0
    ensures IsReport(txs, window, normalize, groups)
  {
    var classes := ClassesOf(txs, normalize);
    ghost var order, arranged;
    groups, order, arranged := CollectGroups(classes, window);
    groups := SortByStart(groups);
    assert ReportVia(txs, window, normalize, order, arranged, groups);
  }

  lemma SmallClassHasNoGroups(txs: seq<Transaction>, window: int)
    requires |txs| < 2 && window >= 0
    ensures GroupsOf(Windows(txs, window)) == []
  {
    if |txs| == 1 {
      assert txs[1..] == [];
      assert Span(txs, txs[0].occurredAt, window) == 1;
      assert txs[..1] == txs;
      assert Windows(txs, window) == [txs] + Windows([], window);
    }
  }
}
