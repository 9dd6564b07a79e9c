/** What a duplicate report says about its transactions, field by field. */
module DuplicateFields {
  import opened Ledger
  import opened Sorting
  import opened StringOrder
  import opened Duplicates
  import opened DuplicateWindows
  import opened DuplicateReport

  /** The transactions that are looked at. */
  predicate Counted(tx: Transaction) {
    tx.kind == Income || tx.kind == Expense || tx.kind == Transfer
  }

  /** Two transactions that differ at most in id, time, the way the comment is written, and whether the amount is hidden. */
  predicate Alike(a: Transaction, b: Transaction, normalize: string -> string) {
    && a.kind == b.kind && a.categoryId == b.categoryId
    && a.sourceAccountId == b.sourceAccountId && a.destinationAccountId == b.destinationAccountId
    && a.sourceAmount.minor == b.sourceAmount.minor && a.sourceAmount.currency == b.sourceAmount.currency
    && (a.destinationAmount.Some? <==> b.destinationAmount.Some?)
    && (a.destinationAmount.Some? ==>
          && a.destinationAmount.value.minor == b.destinationAmount.value.minor
          && a.destinationAmount.value.currency == b.destinationAmount.value.currency)
    && normalize(a.comment) == normalize(b.comment)
  }

  /** The group reports a run of the input: alike transactions in time order, the last within the window of the first, with
      their ids in text order. */
  ghost predicate ReportsRun(g: Group, run: seq<Transaction>, txs: seq<Transaction>, window: int, normalize: string -> string) {
    && |run| >= 2 && multiset(run) <= multiset(txs)
    && (forall i | 0 <= i < |run| :: Counted(run[i]))
    && (forall i, j | 0 <= i < j < |run| :: Alike(run[i], run[j], normalize) && run[i].occurredAt <= run[j].occurredAt)
    && run[|run| - 1].occurredAt - run[0].occurredAt <= window
    && multiset(g.ids) == multiset(seq(|run|, i requires 0 <= i < |run| => run[i].id))
    && (forall i, j | 0 <= i < j < |g.ids| :: !TextLess(g.ids[j], g.ids[i]))
    && g.kind == run[0].kind && g.amount == run[0].sourceAmount
    && g.first == run[0].occurredAt && g.last == run[|run| - 1].occurredAt
  }

  lemma InClassMeansAlike(a: Transaction, b: Transaction, sig: Signature, normalize: string -> string)
    requires InClass(sig, normalize)(a)
    ensures Counted(a) && (InClass(sig, normalize)(b) <==> Counted(b) && Alike(a, b, normalize))
  {
  }

  lemma MemberOfClass(txs: seq<Transaction>, sig: Signature, normalize: string -> string, run: seq<Transaction>, i: nat)
    requires multiset(run) <= multiset(ClassOf(txs, sig, normalize)) && i < |run|
    ensures InClass(sig, normalize)(run[i])
  {
    assert run[i] in multiset(run);
    assert run[i] in multiset(ClassOf(txs, sig, normalize));
    FilterMember(InClass(sig, normalize), txs, run[i]);
  }

  lemma ClassWithinInput(txs: seq<Transaction>, sig: Signature, normalize: string -> string)
    ensures multiset(ClassOf(txs, sig, normalize)) <= multiset(txs)
  {
    forall x: Transaction
      ensures multiset(ClassOf(txs, sig, normalize))[x] <= multiset(txs)[x]
    {
      FilterCount(InClass(sig, normalize), txs, x);
    }
  }

  lemma DescribedRun(g: Group, run: seq<Transaction>, txs: seq<Transaction>, sig: Signature, window: int, normalize: string -> string)
    requires Describes(g, run, ClassOf(txs, sig, normalize), window)
    ensures ReportsRun(g, run, txs, window, normalize)
  {
    ClassWithinInput(txs, sig, normalize);
    SortedByTimeIsTimeSorted(run);
    forall i | 0 <= i < |run|
      ensures InClass(sig, normalize)(run[i])
    {
      MemberOfClass(txs, sig, normalize, run, i);
    }
    forall i, j | 0 <= i < j < |run|
      ensures Alike(run[i], run[j], normalize)
    {
      InClassMeansAlike(run[i], run[j], sig, normalize);
    }
    forall i | 0 <= i < |run|
      ensures Counted(run[i])
    {
      InClassMeansAlike(run[i], run[i], sig, normalize);
    }
    assert Ids(run) == seq(|run|, i requires 0 <= i < |run| => run[i].id);
    forall i, j | 0 <= i < j < |g.ids|
      ensures !TextLess(g.ids[j], g.ids[i])
    {
      assert !TextOrder()(g.ids[j], g.ids[i]);
    }
  }

  /** Every reported group is such a run of the input ... */
  lemma GroupsReportAlikeRuns(txs: seq<Transaction>, window: int, normalize: string -> string, groups: seq<Group>, g: Group)
    requires window >= 0 && IsReport(txs, window, normalize, groups) && g in groups
    ensures exists run :: ReportsRun(g, run, txs, window, normalize)
  {
    EveryGroupIsSound(txs, window, normalize, groups, g);
    var sig :| sig in Signatures(txs, normalize) && ReportsFrom(g, ClassOf(txs, sig, normalize), window);
    var run :| Describes(g, run, ClassOf(txs, sig, normalize), window);
    DescribedRun(g, run, txs, sig, window, normalize);
  }

  lemma TwoInClass(txs: seq<Transaction>, sig: Signature, normalize: string -> string, i: nat, j: nat, window: int)
    requires i < |txs| && j < |txs| && i != j && InClass(sig, normalize)(txs[i]) && InClass(sig, normalize)(txs[j])
    requires 0 <= txs[j].occurredAt - txs[i].occurredAt <= window
    ensures TwoClose(ClassOf(txs, sig, normalize), window)
  {
    var cls, a, b := ClassOf(txs, sig, normalize), txs[i], txs[j];
    TwoInMultiset(txs, if i < j then i else j, if i < j then j else i);
    assert multiset{a, b} <= multiset(txs);
    forall x: Transaction
      ensures multiset{a, b}[x] <= multiset(cls)[x]
    {
      FilterCount(InClass(sig, normalize), txs, x);
    }
    var p, q := TwoPositions(cls, a, b);
    assert p != q && 0 <= cls[q].occurredAt - cls[p].occurredAt <= window;
  }

  /** ... and any two alike transactions within the window make some group of transactions like them. */
  lemma AlikePairIsReported(txs: seq<Transaction>, window: int, normalize: string -> string, groups: seq<Group>, i: nat, j: nat)
    returns (g: Group, run: seq<Transaction>)
    requires window >= 0 && IsReport(txs, window, normalize, groups)
    requires i < |txs| && j < |txs| && i != j && Counted(txs[i]) && Alike(txs[i], txs[j], normalize)
    requires 0 <= txs[j].occurredAt - txs[i].occurredAt <= window
    ensures g in groups && ReportsRun(g, run, txs, window, normalize) && forall k | 0 <= k < |run| :: Alike(txs[i], run[k], normalize)
  {
    var sig := SignatureOf(txs[i], normalize);
    InClassMeansAlike(txs[i], txs[j], sig, normalize);
    TwoInClass(txs, sig, normalize, i, j, window);
    ClassReportedIffTwoClose(txs, window, normalize, groups, sig);
    g :| g in groups && ReportsFrom(g, ClassOf(txs, sig, normalize), window);
    run :| Describes(g, run, ClassOf(txs, sig, normalize), window);
    DescribedRun(g, run, txs, sig, window, normalize);
    forall k | 0 <= k < |run|
      ensures Alike(txs[i], run[k], normalize)
    {
      MemberOfClass(txs, sig, normalize, run, k);
      InClassMeansAlike(txs[i], run[k], sig, normalize);
    }
  }

  /** Groups come by the time of their first transaction, and with equal times by their first id. */
  lemma GroupsComeInOrder(txs: seq<Transaction>, window: int, normalize: string -> string, groups: seq<Group>, i: nat, j: nat)
    requires window >= 0 && IsReport(txs, window, normalize, groups) && i < j < |groups|
    ensures groups[i].ids != [] && groups[j].ids != []
    ensures groups[i].first <= groups[j].first
    ensures groups[i].first == groups[j].first ==> !TextLess(groups[j].ids[0], groups[i].ids[0])
  {
    var order, arranged :| ReportVia(txs, window, normalize, order, arranged, groups);
    assert !ByStart()(groups[j], groups[i]);
    HasIds(txs, window, normalize, groups, groups[i]);
    HasIds(txs, window, normalize, groups, groups[j]);
  }

  lemma HasIds(txs: seq<Transaction>, window: int, normalize: string -> string, groups: seq<Group>, g: Group)
    requires window >= 0 && IsReport(txs, window, normalize, groups) && g in groups
    ensures g.ids != []
  {
    EveryGroupIsSound(txs, window, normalize, groups, g);
    var sig :| sig in Signatures(txs, normalize) && ReportsFrom(g, ClassOf(txs, sig, normalize), window);
    GroupHasIds(g, ClassOf(txs, sig, normalize), window);
  }
}
