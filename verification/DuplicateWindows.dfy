/** What the greedy cut of one time-sorted class guarantees. */
module DuplicateWindows {
  import opened Ledger
  import opened Sorting
  import opened Duplicates

  predicate TimeSorted(txs: seq<Transaction>) {
    forall i, j | 0 <= i < j < |txs| :: txs[i].occurredAt <= txs[j].occurredAt
  }

  /** Every two transactions lie within `window` of each other. */
  predicate Within(txs: seq<Transaction>, window: int) {
    forall i, j | 0 <= i < |txs| && 0 <= j < |txs| :: txs[j].occurredAt - txs[i].occurredAt <= window
  }

  ghost predicate TwoClose(txs: seq<Transaction>, window: int) {
    exists i, j | 0 <= i < |txs| && 0 <= j < |txs| :: i != j && 0 <= txs[j].occurredAt - txs[i].occurredAt <= window
  }

  function Flatten<T>(runs: seq<seq<T>>): seq<T> {
    if runs == [] then [] else runs[0] + Flatten(runs[1..])
  }

  lemma SortedByTimeIsTimeSorted(txs: seq<Transaction>)
    requires Sorted(ByTime(), txs)
    ensures TimeSorted(txs)
  {
    forall i, j | 0 <= i < j < |txs|
      ensures txs[i].occurredAt <= txs[j].occurredAt
    {
      assert !ByTime()(txs[j], txs[i]);
    }
  }

  /** The span stops exactly at the first transaction beyond the window. */
  lemma {:induction false} SpanStops(txs: seq<Transaction>, start: int, window: int)
    ensures var n := Span(txs, start, window);
            && (forall k | 0 <= k < n :: txs[k].occurredAt - start <= window)
            && (n < |txs| ==> txs[n].occurredAt - start > window)
  {
    if txs != [] && txs[0].occurredAt - start <= window {
      SpanStops(txs[1..], start, window);
      var n := Span(txs[1..], start, window);
      forall k | 0 < k < n + 1
        ensures txs[k].occurredAt - start <= window
      {
        assert txs[k] == txs[1..][k - 1];
      }
    }
  }

  lemma FirstSpanIsWithin(txs: seq<Transaction>, window: int)
    requires txs != [] && window >= 0 && TimeSorted(txs)
    ensures var n := Span(txs, txs[0].occurredAt, window); n >= 1 && Within(txs[..n], window)
  {
    SpanStops(txs, txs[0].occurredAt, window);
    var run := txs[..Span(txs, txs[0].occurredAt, window)];
    forall i, j | 0 <= i < |run| && 0 <= j < |run|
      ensures run[j].occurredAt - run[i].occurredAt <= window
    {
      assert run[i] == txs[i] && run[j] == txs[j];
      assert i > 0 ==> txs[0].occurredAt <= txs[i].occurredAt;
    }
  }

  lemma TimeSortedTail(txs: seq<Transaction>, n: nat)
    requires n <= |txs| && TimeSorted(txs)
    ensures TimeSorted(txs[n..])
  {
    assert forall k | 0 <= k < |txs[n..]| :: txs[n..][k] == txs[n + k];
  }

  lemma FirstWindow(txs: seq<Transaction>, window: int)
    requires txs != [] && window >= 0 && TimeSorted(txs)
    ensures var n := Span(txs, txs[0].occurredAt, window);
            && n >= 1 && Windows(txs, window) == [txs[..n]] + Windows(txs[n..], window)
            && Within(txs[..n], window) && TimeSorted(txs[n..])
            && (forall k | n <= k < |txs| :: txs[k].occurredAt > txs[0].occurredAt + window)
  {
    SpanStops(txs, txs[0].occurredAt, window);
    FirstSpanIsWithin(txs, window);
    TimeSortedTail(txs, Span(txs, txs[0].occurredAt, window));
  }

  /** The windows cut the class into non-empty consecutive runs, each no longer than the window, losing nothing. */
  lemma {:induction false} WindowsPartition(txs: seq<Transaction>, window: int)
    requires window >= 0 && TimeSorted(txs)
    ensures Flatten(Windows(txs, window)) == txs
    ensures forall run: seq<Transaction> | run in Windows(txs, window) :: run != [] && Within(run, window) && TimeSorted(run)
    decreases |txs|
  {
    if txs != [] {
      FirstWindow(txs, window);
      var n := Span(txs, txs[0].occurredAt, window);
      WindowsPartition(txs[n..], window);
      var rest := Windows(txs[n..], window);
      assert ([txs[..n]] + rest)[1..] == rest;
      assert txs == txs[..n] + txs[n..];
    }
  }

  // ---------- fewest windows ----------

  predicate Covered(starts: set<int>, at: int, window: int) {
    exists c | c in starts :: c <= at <= c + window
  }

  predicate Covers(starts: set<int>, txs: seq<Transaction>, window: int) {
    forall k | 0 <= k < |txs| :: Covered(starts, txs[k].occurredAt, window)
  }

  /** The instants at which windows open. */
  function Openings(runs: seq<seq<Transaction>>): set<int>
    requires forall k | 0 <= k < |runs| :: runs[k] != []
  {
    if runs == [] then {} else {runs[0][0].occurredAt} + Openings(runs[1..])
  }

  /** No choice of window positions, greedy or not, covers a class with fewer windows. */
  lemma {:induction false} GreedyUsesFewestWindows(txs: seq<Transaction>, window: int, starts: set<int>)
    requires window >= 0 && TimeSorted(txs) && Covers(starts, txs, window)
    ensures |Windows(txs, window)| <= |starts|
    decreases |txs|
  {
    if txs != [] {
      FirstWindow(txs, window);
      var n, from := Span(txs, txs[0].occurredAt, window), txs[0].occurredAt;
      assert Covered(starts, from, window);
      var c :| c in starts && c <= from <= c + window;
      forall k | 0 <= k < |txs[n..]|
        ensures Covered(starts - {c}, txs[n..][k].occurredAt, window)
      {
        var at := txs[n + k].occurredAt;
        assert Covered(starts, at, window) && at > from + window;
        var d :| d in starts && d <= at <= d + window;
        assert d in starts - {c};
      }
      GreedyUsesFewestWindows(txs[n..], window, starts - {c});
    }
  }

  lemma {:induction false} OpeningsFrom(txs: seq<Transaction>, window: int)
    requires window >= 0 && TimeSorted(txs)
    ensures forall k | 0 <= k < |Windows(txs, window)| :: Windows(txs, window)[k] != []
    ensures txs != [] ==> forall c | c in Openings(Windows(txs, window)) :: c >= txs[0].occurredAt
    ensures |Openings(Windows(txs, window))| == |Windows(txs, window)|
    decreases |txs|
  {
    if txs != [] {
      FirstWindow(txs, window);
      var n := Span(txs, txs[0].occurredAt, window);
      var rest := Windows(txs[n..], window);
      OpeningsFrom(txs[n..], window);
      assert ([txs[..n]] + rest)[1..] == rest;
      assert n < |txs| ==> txs[n..][0] == txs[n];
      assert txs[0].occurredAt !in Openings(rest);
    }
  }

  /** The greedy openings are themselves such a choice, one instant per window: the minimum is attained. */
  lemma {:induction false} GreedyOpeningsCover(txs: seq<Transaction>, window: int)
    requires window >= 0 && TimeSorted(txs)
    ensures forall k | 0 <= k < |Windows(txs, window)| :: Windows(txs, window)[k] != []
    ensures Covers(Openings(Windows(txs, window)), txs, window)
    ensures |Openings(Windows(txs, window))| == |Windows(txs, window)|
    decreases |txs|
  {
    OpeningsFrom(txs, window);
    if txs != [] {
      FirstWindow(txs, window);
      var n, from := Span(txs, txs[0].occurredAt, window), txs[0].occurredAt;
      var rest := Windows(txs[n..], window);
      GreedyOpeningsCover(txs[n..], window);
      assert ([txs[..n]] + rest)[1..] == rest;
      var all := Openings(Windows(txs, window));
      forall k | 0 <= k < |txs|
        ensures Covered(all, txs[k].occurredAt, window)
      {
        if k < n {
          assert from <= txs[k].occurredAt && txs[..n][k] == txs[k] && txs[..n][0] == txs[0];
          assert from in all;
        } else {
          assert txs[n..][k - n] == txs[k] && Covered(Openings(rest), txs[k].occurredAt, window);
          assert Openings(rest) <= all;
        }
      }
    }
  }

  // ---------- a group exactly when two transactions are close ----------

  lemma CloseInSorted(txs: seq<Transaction>, window: int) returns (i: nat, j: nat)
    requires TimeSorted(txs) && TwoClose(txs, window)
    ensures i < j < |txs| && txs[j].occurredAt - txs[i].occurredAt <= window
  {
    i, j :| 0 <= i < |txs| && 0 <= j < |txs| && i != j && 0 <= txs[j].occurredAt - txs[i].occurredAt <= window;
    if j < i {
      i, j := j, i;
    }
  }

  /** A sorted class leaves some window with two transactions exactly when two of its transactions are close. */
  lemma {:induction false} CloseGivesGroup(txs: seq<Transaction>, window: int)
    requires window >= 0 && TimeSorted(txs)
    ensures (exists run | run in Windows(txs, window) :: |run| >= 2) <==> TwoClose(txs, window)
    decreases |txs|
  {
    if txs != [] {
      FirstWindow(txs, window);
      var n := Span(txs, txs[0].occurredAt, window);
      var rest := txs[n..];
      CloseGivesGroup(rest, window);
      assert Windows(txs, window) == [txs[..n]] + Windows(rest, window);
      assert Windows(txs, window)[0] == txs[..n];
      if n >= 2 {
        assert 0 <= txs[1].occurredAt - txs[0].occurredAt <= window by {
          assert txs[..n][1] == txs[1] && txs[..n][0] == txs[0];
        }
      } else {
        if TwoClose(txs, window) {
          var i, j := CloseInSorted(txs, window);
          assert i != 0;
          assert 0 <= rest[j - 1].occurredAt - rest[i - 1].occurredAt <= window;
        }
        if TwoClose(rest, window) {
          var i, j := CloseInSorted(rest, window);
          assert 0 <= txs[j + 1].occurredAt - txs[i + 1].occurredAt <= window;
        }
        assert forall run: seq<Transaction> | run in Windows(txs, window) :: run == txs[..n] || run in Windows(rest, window);
        assert forall run: seq<Transaction> | run in Windows(rest, window) :: run in Windows(txs, window);
      }
    }
  }

  lemma {:induction false} TwoInMultiset<T>(s: seq<T>, i: nat, j: nat)
    requires i < |s| && j < |s| && i != j
    ensures multiset{s[i], s[j]} <= multiset(s)
  {
    RemoveAt(s, i);
    var rest := s[..i] + s[i + 1..];
    assert s[j] == rest[if j < i then j else j - 1];
    assert s[j] in multiset(rest);
  }

  lemma {:induction false} TwoPositions<T>(s: seq<T>, x: T, y: T) returns (i: nat, j: nat)
    requires multiset{x, y} <= multiset(s)
    ensures i < |s| && j < |s| && i != j && s[i] == x && s[j] == y
  {
    assert multiset{x, y}[x] >= 1;
    i := SamePosition(s, x);
    RemoveAt(s, i);
    var rest := s[..i] + s[i + 1..];
    assert multiset{x, y} - multiset{x} == multiset{y};
    assert y in multiset(rest);
    var k := SamePosition(rest, y);
    j := if k < i then k else k + 1;
  }

  /** Whether two transactions are close does not depend on their arrangement. */
  lemma TwoClosePermutation(s: seq<Transaction>, t: seq<Transaction>, window: int)
    requires multiset(s) == multiset(t)
    ensures TwoClose(s, window) <==> TwoClose(t, window)
  {
    if TwoClose(s, window) {
      var i, j :| 0 <= i < |s| && 0 <= j < |s| && i != j && 0 <= s[j].occurredAt - s[i].occurredAt <= window;
      TwoInMultiset(s, i, j);
      var k, l := TwoPositions(t, s[i], s[j]);
    }
    if TwoClose(t, window) {
      var i, j :| 0 <= i < |t| && 0 <= j < |t| && i != j && 0 <= t[j].occurredAt - t[i].occurredAt <= window;
      TwoInMultiset(t, i, j);
      var k, l := TwoPositions(s, t[i], t[j]);
    }
  }
}
