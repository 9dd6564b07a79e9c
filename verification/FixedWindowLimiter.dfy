/** The request limiter that counts per aligned minute. */
module FixedWindowLimiter {
  import opened Durations
  import opened Integers

  // Instants are nanoseconds since the zero time of the clock, to which minutes are aligned.

  /** The minute an instant falls in, given by its start. */
  function WindowOf(now: int): (start: int)
    ensures start <= now < start + MINUTE && start % MINUTE == 0
  {
    now - now % MINUTE
  }

  /** A window start of zero is the clock's zero time, which stands for "no window yet". */
  datatype State = State(windowStart: int, count: nat)

  const FRESH := State(0, 0)

  function Opened(s: State, now: int): State {
    if s.windowStart == 0 || s.windowStart != WindowOf(now) then State(WindowOf(now), 0) else s
  }

  predicate Admits(limit: nat, s: State, now: int) {
    Opened(s, now).count < limit
  }

  function After(limit: nat, s: State, now: int): State {
    if Admits(limit, s, now) then Opened(s, now).(count := Opened(s, now).count + 1) else Opened(s, now)
  }

  class Limiter {
    const limit: nat
    var windowStart: int
    var count: nat

    constructor (limit: nat)
      ensures this.limit == limit && Contents() == FRESH
    {
      this.limit, windowStart, count := limit, 0, 0;
    }

    function Contents(): State
      reads this
    {
      State(windowStart, count)
    }

    /** The first call of a minute starts a count of its own; a minute that starts at zero is never recognised again. */
    method Allow(now: int) returns (ok: bool)
      modifies this
      ensures var minute := now - now % 60_000_000_000;
        var before := if old(windowStart) == minute && minute != 0 then old(count) else 0;
        && ok == (before < limit)
        && windowStart == minute && count == if ok then before + 1 else before
      ensures ok == Admits(limit, old(Contents()), now)
      ensures Contents() == After(limit, old(Contents()), now)
    {
      var window := now - now % MINUTE;
      if windowStart == 0 || windowStart != window {
        windowStart, count := window, 0;
      }
      if count >= limit {
        return false;
      }
      count := count + 1;
      return true;
    }
  }

  // ---------- traces ----------

  // The source reads its clock before it takes the lock, so calls may be served in another order than their readings.

  /** How many of the calls made at `readings` are admitted at an instant from `lo` up to but not including `hi`. */
  function Admissions(limit: nat, s: State, readings: seq<int>, lo: int, hi: int): nat
    decreases |readings|
  {
    if readings == [] then 0
    else
      (if lo <= readings[0] < hi && Admits(limit, s, readings[0]) then 1 else 0)
      + Admissions(limit, After(limit, s, readings[0]), readings[1..], lo, hi)
  }

  lemma {:induction false} AdmissionsAdd(limit: nat, s: State, readings: seq<int>, lo: int, mid: int, hi: int)
    requires lo <= mid <= hi
    ensures Admissions(limit, s, readings, lo, hi)
            == Admissions(limit, s, readings, lo, mid) + Admissions(limit, s, readings, mid, hi)
    decreases |readings|
  {
    if readings != [] {
      AdmissionsAdd(limit, After(limit, s, readings[0]), readings[1..], lo, mid, hi);
    }
  }

  lemma SameWindow(start: int, now: int)
    requires start % MINUTE == 0
    ensures WindowOf(now) == start <==> start <= now < start + MINUTE
    ensures now >= start ==> WindowOf(now) >= start
  {
  }

  // ---------- what is admitted in a minute, for calls served in any order ----------

  /** Whether the next call falls in the minute. */
  predicate NextIn(readings: seq<int>, start: int) {
    readings != [] && WindowOf(readings[0]) == start
  }

  /** The lengths of the visits to a minute: the longest blocks of consecutive calls that fall in it. */
  function Visits(readings: seq<int>, start: int): (visits: seq<nat>)
    ensures NextIn(readings, start) ==> visits != []
    decreases |readings|
  {
    if readings == [] then []
    else
      var rest := Visits(readings[1..], start);
      if !NextIn(readings, start) then rest
      else if NextIn(readings[1..], start) then [rest[0] + 1] + rest[1..]
      else [1] + rest
  }

  /** What visits get if each may admit up to `limit`, the first one up to `room`. */
  function Admitted(limit: nat, room: nat, visits: seq<nat>): nat
    decreases |visits|
  {
    if visits == [] then 0 else Min(room, visits[0]) + Admitted(limit, limit, visits[1..])
  }

  /** The room for the next visit: what the open window has left if it is the minute's, and the limit otherwise. */
  function Room(limit: nat, s: State, readings: seq<int>, start: int): nat
    requires s.count <= limit
  {
    if s.windowStart == start && NextIn(readings, start) then limit - s.count else limit
  }

  /** Every visit admits its calls up to the limit, in whatever order the calls are served. */
  lemma {:induction false} VisitsAdmit(limit: nat, s: State, readings: seq<int>, start: int)
    requires start % MINUTE == 0 && start != 0 && s.count <= limit
    ensures Admissions(limit, s, readings, start, start + MINUTE)
            == Admitted(limit, Room(limit, s, readings, start), Visits(readings, start))
    decreases |readings|
  {
    if readings != [] {
      var now, rest := readings[0], readings[1..];
      SameWindow(start, now);
      VisitsAdmit(limit, After(limit, s, now), rest, start);
      var visits := Visits(rest, start);
      if NextIn(readings, start) && NextIn(rest, start) {
        assert ([visits[0] + 1] + visits[1..])[1..] == visits[1..];
      } else if NextIn(readings, start) {
        assert ([1] + visits)[1..] == visits;
      }
    }
  }

  /** Exactly: the calls admitted in an aligned minute are, visit by visit, its calls up to the limit. */
  lemma AdmittedPerVisit(limit: nat, readings: seq<int>, start: int)
    requires start % MINUTE == 0 && start != 0
    ensures Admissions(limit, FRESH, readings, start, start + MINUTE) == Admitted(limit, limit, Visits(readings, start))
  {
    VisitsAdmit(limit, FRESH, readings, start);
  }

  lemma {:induction false} VisitsAreNotEmpty(readings: seq<int>, start: int)
    ensures forall k | 0 <= k < |Visits(readings, start)| :: Visits(readings, start)[k] > 0
    decreases |readings|
  {
    if readings != [] {
      VisitsAreNotEmpty(readings[1..], start);
    }
  }

  lemma {:induction false} AdmittedBounds(limit: nat, visits: seq<nat>)
    ensures Admitted(limit, limit, visits) <= limit * |visits|
    ensures limit == 1 && (forall k | 0 <= k < |visits| :: visits[k] > 0) ==> Admitted(limit, limit, visits) == |visits|
    decreases |visits|
  {
    if visits != [] {
      AdmittedBounds(limit, visits[1..]);
      assert limit * |visits| == limit + limit * (|visits| - 1);
    }
  }

  /** At most `limit` calls are admitted per visit, and a limit of one admits exactly one. */
  lemma AtMostLimitPerVisit(limit: nat, readings: seq<int>, start: int)
    requires start % MINUTE == 0 && start != 0
    ensures Admissions(limit, FRESH, readings, start, start + MINUTE) <= limit * |Visits(readings, start)|
    ensures limit == 1 ==> Admissions(limit, FRESH, readings, start, start + MINUTE) == |Visits(readings, start)|
  {
    AdmittedPerVisit(limit, readings, start);
    VisitsAreNotEmpty(readings, start);
    AdmittedBounds(limit, Visits(readings, start));
  }

  predicate LimitHolds(limit: nat, readings: seq<int>, start: int) {
    Admissions(limit, FRESH, readings, start, start + MINUTE) <= limit
  }

  /** So a trace keeps every limit in a minute if and only if its calls in that minute come in a single block. */
  lemma LimitHoldsIffOneVisit(readings: seq<int>, start: int)
    requires start % MINUTE == 0 && start != 0
    ensures (forall limit: nat | limit > 0 :: LimitHolds(limit, readings, start)) <==> |Visits(readings, start)| <= 1
  {
    AtMostLimitPerVisit(1, readings, start);
    if |Visits(readings, start)| <= 1 {
      forall limit: nat | limit > 0
        ensures LimitHolds(limit, readings, start)
      {
        AtMostLimitPerVisit(limit, readings, start);
        assert |Visits(readings, start)| == 1 ==> limit * |Visits(readings, start)| == limit;
      }
    } else {
      assert !LimitHolds(1, readings, start);
    }
  }

  /** Sixty seconds reach into two minutes. */
  lemma SixtySecondsPerVisit(limit: nat, readings: seq<int>, lo: int)
    requires WindowOf(lo) != 0 && WindowOf(lo) + MINUTE != 0
    ensures Admissions(limit, FRESH, readings, lo, lo + MINUTE)
            <= limit * |Visits(readings, WindowOf(lo))| + limit * |Visits(readings, WindowOf(lo) + MINUTE)|
  {
    var start := WindowOf(lo);
    AdmissionsAdd(limit, FRESH, readings, start, lo, start + 2 * MINUTE);
    AdmissionsAdd(limit, FRESH, readings, lo, lo + MINUTE, start + 2 * MINUTE);
    AdmissionsAdd(limit, FRESH, readings, start, start + MINUTE, start + 2 * MINUTE);
    AtMostLimitPerVisit(limit, readings, start);
    AtMostLimitPerVisit(limit, readings, start + MINUTE);
  }

  // ---------- calls served in the order of their readings ----------

  predicate NonDecreasing(readings: seq<int>, from: int)
    decreases |readings|
  {
    readings == [] || (readings[0] >= from && NonDecreasing(readings[1..], readings[0]))
  }

  lemma {:induction false} NoVisitAfter(readings: seq<int>, from: int, start: int)
    requires NonDecreasing(readings, from) && start % MINUTE == 0 && from >= start + MINUTE
    ensures Visits(readings, start) == []
    decreases |readings|
  {
    if readings != [] {
      SameWindow(start, readings[0]);
      NoVisitAfter(readings[1..], readings[0], start);
    }
  }

  lemma {:induction false} OrderedVisits(readings: seq<int>, from: int, start: int)
    requires NonDecreasing(readings, from) && start % MINUTE == 0
    ensures |Visits(readings, start)| <= 1
    decreases |readings|
  {
    if readings != [] {
      var rest := readings[1..];
      OrderedVisits(rest, readings[0], start);
      if NextIn(readings, start) && rest != [] && !NextIn(rest, start) {
        SameWindow(start, readings[0]);
        SameWindow(start, rest[0]);
        NoVisitAfter(rest, rest[0], start);
      }
    }
  }

  /** In order there is one visit, so at most `limit` calls are admitted per aligned minute ... */
  lemma AtMostLimitPerMinute(limit: nat, readings: seq<int>, from: int, start: int)
    requires NonDecreasing(readings, from) && start % MINUTE == 0 && start != 0
    ensures Admissions(limit, FRESH, readings, start, start + MINUTE) <= limit
  {
    OrderedVisits(readings, from, start);
    AtMostLimitPerVisit(limit, readings, start);
    assert limit * |Visits(readings, start)| <= limit;
  }

  /** ... and at most twice `limit` in any half-open interval of sixty seconds. */
  lemma AtMostTwiceLimitPerSixtySeconds(limit: nat, readings: seq<int>, from: int, lo: int)
    requires NonDecreasing(readings, from) && WindowOf(lo) != 0 && WindowOf(lo) + MINUTE != 0
    ensures Admissions(limit, FRESH, readings, lo, lo + MINUTE) <= 2 * limit
  {
    SixtySecondsPerVisit(limit, readings, lo);
    OrderedVisits(readings, from, WindowOf(lo));
    OrderedVisits(readings, from, WindowOf(lo) + MINUTE);
    assert limit * |Visits(readings, WindowOf(lo))| <= limit && limit * |Visits(readings, WindowOf(lo) + MINUTE)| <= limit;
  }

  function Repeat(now: int, times: nat): seq<int> {
    seq(times, _ => now)
  }

  lemma {:induction false} BurstIsAdmitted(limit: nat, s: State, now: int, times: nat, rest: seq<int>, lo: int, hi: int)
    requires s.windowStart == WindowOf(now) && s.windowStart != 0 && s.count + times <= limit && lo <= now < hi
    ensures Admissions(limit, s, Repeat(now, times) + rest, lo, hi)
            == times + Admissions(limit, State(s.windowStart, s.count + times), rest, lo, hi)
    decreases times
  {
    var all := Repeat(now, times) + rest;
    if times == 0 {
      assert all == rest;
    } else {
      assert all[0] == now && all[1..] == Repeat(now, times - 1) + rest;
      BurstIsAdmitted(limit, After(limit, s, now), now, times - 1, rest, lo, hi);
    }
  }

  lemma FreshBurst(limit: nat, s: State, now: int, rest: seq<int>, lo: int, hi: int)
    requires limit > 0 && WindowOf(now) != 0 && s.windowStart != WindowOf(now) && lo <= now < hi
    ensures Admissions(limit, s, Repeat(now, limit) + rest, lo, hi)
            == limit + Admissions(limit, State(WindowOf(now), limit), rest, lo, hi)
  {
    var all := Repeat(now, limit) + rest;
    assert all[0] == now && all[1..] == Repeat(now, limit - 1) + rest;
    BurstIsAdmitted(limit, After(limit, s, now), now, limit - 1, rest, lo, hi);
  }

  /** The factor two is reached: bursts on both sides of a minute's end, one nanosecond apart. */
  lemma TwiceLimitIsReached(limit: nat)
    requires limit > 0
    ensures var first, second := 2 * MINUTE - 1, 2 * MINUTE;
            Admissions(limit, FRESH, Repeat(first, limit) + (Repeat(second, limit) + []), first, first + MINUTE) == 2 * limit
  {
    var first, second := 2 * MINUTE - 1, 2 * MINUTE;
    SameWindow(MINUTE, first);
    SameWindow(second, second);
    FreshBurst(limit, FRESH, first, Repeat(second, limit) + [], first, first + MINUTE);
    FreshBurst(limit, State(MINUTE, limit), second, [], first, first + MINUTE);
  }

  /** How many readings fall between two instants. */
  function Calls(readings: seq<int>, lo: int, hi: int): nat {
    if readings == [] then 0 else (if lo <= readings[0] < hi then 1 else 0) + Calls(readings[1..], lo, hi)
  }

  /** In the clock's very first minute the window start is never recognised, so every call there is admitted, in any trace. */
  lemma {:induction false} ZeroMinuteIsUnlimited(limit: nat, s: State, readings: seq<int>)
    requires limit > 0
    ensures Admissions(limit, s, readings, 0, MINUTE) == Calls(readings, 0, MINUTE)
    decreases |readings|
  {
    if readings != [] {
      SameWindow(0, readings[0]);
      ZeroMinuteIsUnlimited(limit, After(limit, s, readings[0]), readings[1..]);
    }
  }

  /** Bursts at one instant with a stale reading of the minute before in between. */
  function Flapping(limit: nat, stale: nat): seq<int> {
    Repeat(2 * MINUTE, limit) + (if stale == 0 then [] else [2 * MINUTE - 1] + Flapping(limit, stale - 1))
  }

  /** Readings out of order leave no bound: every stale one reopens the window, so one more burst of `limit` calls passes
      in the same minute. */
  lemma {:induction false} StaleReadingsReopenTheWindow(limit: nat, s: State, stale: nat)
    requires limit > 0 && s.windowStart != 2 * MINUTE
    ensures Admissions(limit, s, Flapping(limit, stale), 2 * MINUTE, 3 * MINUTE) == (stale + 1) * limit
    decreases stale
  {
    var first, second := 2 * MINUTE - 1, 2 * MINUTE;
    SameWindow(MINUTE, first);
    SameWindow(second, second);
    if stale == 0 {
      FreshBurst(limit, s, second, [], second, 3 * MINUTE);
    } else {
      var rest := [first] + Flapping(limit, stale - 1);
      FreshBurst(limit, s, second, rest, second, 3 * MINUTE);
      assert rest[1..] == Flapping(limit, stale - 1);
      assert After(limit, State(second, limit), first) == State(MINUTE, 1);
      StaleReadingsReopenTheWindow(limit, State(MINUTE, 1), stale - 1);
      assert (stale + 1) * limit == limit + stale * limit;
    }
  }
}
