/** Login requests in flight together: the check and the record of a request are separate critical sections of the throttle. */
module LoginRequests {
  import opened Maps
  import opened LoginThrottle
  import A = LoginAttempts

  /** A request reads the clock once, for its check and for its record. */
  datatype Request = Request(ip: string, username: string, now: int)

  /** `flights` are the requests admitted and not yet answered. */
  datatype State = State(buckets: Buckets, flights: map<nat, Request>)

  datatype Step =
    | Check(id: nat, request: Request)
    | Fail(id: nat)
    | Succeed(id: nat)
    | Drop(id: nat)

  predicate Enabled(s: State, step: Step) {
    match step
    case Check(id, _) => id !in s.flights
    case Fail(id) => id in s.flights
    case Succeed(id) => id in s.flights
    case Drop(id) => id in s.flights
  }

  function KeysOf(r: Request): seq<string> {
    Keys(r.ip, r.username)
  }

  function Effect(c: Config, s: State, step: Step): State
    requires Enabled(s, step)
  {
    match step
    case Check(id, r) =>
      var pruned := Pruned(s.buckets, c.window, r.now);
      State(pruned, if Admits(c, pruned, KeysOf(r)) then s.flights[id := r] else s.flights)
    case Fail(id) =>
      var r := s.flights[id];
      State(RecordedAll(c, Pruned(s.buckets, c.window, r.now), KeysOf(r), r.now), Without(s.flights, id))
    case Succeed(id) => State(Removed(s.buckets, KeysOf(s.flights[id])), Without(s.flights, id))
    case Drop(id) => s.(flights := Without(s.flights, id))
  }

  /** A step that is not enabled does nothing. */
  function Next(c: Config, s: State, step: Step): State {
    if Enabled(s, step) then Effect(c, s, step) else s
  }

  function After(c: Config, s: State, steps: seq<Step>): State
    decreases |steps|
  {
    if steps == [] then s else After(c, Next(c, s, steps[0]), steps[1..])
  }

  /** One attempt handled without another in between is its check followed by its record. */
  lemma AttemptIsItsSteps(c: Config, buckets: Buckets, a: A.Attempt, id: nat)
    ensures var checked := Next(c, State(buckets, map[]), Check(id, Request(a.ip, a.username, a.now)));
      var answer := match a.verdict case PasswordWrong => Fail(id) case PasswordRight => Succeed(id) case Broken => Drop(id);
      && (id in checked.flights <==> A.Admitted(c, buckets, a))
      && Next(c, checked, answer) == State(A.After(c, buckets, a), map[])
  {
  }

  // ---------- the table stays bounded ----------

  lemma StepStaysBounded(c: Config, s: State, step: Step)
    requires |s.buckets| <= c.maxEntries
    ensures |Next(c, s, step).buckets| <= c.maxEntries
  {
    if Enabled(s, step) {
      match step {
        case Check(id, r) => PrunedIsSmaller(s.buckets, c.window, r.now);
        case Fail(id) =>
          var r := s.flights[id];
          PrunedIsSmaller(s.buckets, c.window, r.now);
          RecordedStaysBounded(c, Pruned(s.buckets, c.window, r.now), KeysOf(r), r.now);
        case Succeed(id) => SubsetSize(Removed(s.buckets, KeysOf(s.flights[id])).Keys, s.buckets.Keys);
        case Drop(id) =>
      }
    }
  }

  /** However requests overlap, the table never holds more than `maxEntries` buckets. */
  lemma {:induction false} TableStaysBounded(c: Config, s: State, steps: seq<Step>)
    requires |s.buckets| <= c.maxEntries
    ensures |After(c, s, steps).buckets| <= c.maxEntries
    decreases |steps|
  {
    if steps != [] {
      StepStaysBounded(c, s, steps[0]);
      TableStaysBounded(c, Next(c, s, steps[0]), steps[1..]);
    }
  }

  // ---------- no bucket counts more than the limit and the overlap ----------

  predicate Touches(r: Request, key: string) {
    key in KeysOf(r)
  }

  /** The requests of a key in flight. */
  function Flying(s: State, key: string): set<nat> {
    set id | id in s.flights && Touches(s.flights[id], key)
  }

  /** At most `k` requests of the key are in flight, all along the run. */
  predicate Uncrowded(c: Config, s: State, steps: seq<Step>, key: string, k: nat)
    decreases |steps|
  {
    |Flying(s, key)| <= k && (steps == [] || Uncrowded(c, Next(c, s, steps[0]), steps[1..], key, k))
  }

  /** From the limit on, a bucket and the requests that may still count in it stay within the bound together. */
  predicate CountInv(c: Config, s: State, key: string, k: nat) {
    key in s.buckets && s.buckets[key].count >= c.maxFailures ==>
      s.buckets[key].count + |Flying(s, key)| <= c.maxFailures + k - 1
  }

  /** The step answers a request of the key with a wrong password. */
  predicate FailsAt(s: State, step: Step, key: string) {
    step.Fail? && step.id in s.flights && Touches(s.flights[step.id], key)
  }

  predicate SucceedsAt(s: State, step: Step, key: string) {
    step.Succeed? && step.id in s.flights && Touches(s.flights[step.id], key)
  }

  lemma FlyingAfter(c: Config, s: State, step: Step, key: string)
    ensures !step.Check? ==> |Flying(Next(c, s, step), key)| <= |Flying(s, key)|
    ensures FailsAt(s, step, key) ==> |Flying(Next(c, s, step), key)| == |Flying(s, key)| - 1
  {
    var t := Next(c, s, step);
    if Enabled(s, step) && !step.Check? {
      assert Flying(t, key) == Flying(s, key) - {step.id};
    }
  }

  /** What a failing answer does to the buckets of its keys. */
  lemma FailureRecorded(c: Config, s: State, step: Step, key: string)
    requires FailsAt(s, step, key)
    ensures var r := s.flights[step.id]; var t := Next(c, s, step);
      var live := key in s.buckets && !Expired(s.buckets[key], c.window, r.now);
      && (key in t.buckets <==> HasRoom(c, Pruned(s.buckets, c.window, r.now), r.ip, key))
      && (live ==> key in t.buckets)
      && (key in t.buckets ==>
            t.buckets[key] == if live then Bucket(s.buckets[key].count + 1, s.buckets[key].startedAt) else Bucket(1, r.now))
  {
    var r := s.flights[step.id];
    FailureReachesBucketIff(c, Pruned(s.buckets, c.window, r.now), r.ip, r.username, r.now, key);
  }

  /** Every other step leaves a bucket as it is or drops it; it stays if nothing succeeds and no reading is past its end. */
  lemma OtherStepKeepsBucket(c: Config, s: State, step: Step, key: string)
    requires !FailsAt(s, step, key)
    ensures var t := Next(c, s, step);
      && (key in t.buckets ==> key in s.buckets && t.buckets[key] == s.buckets[key])
      && (step.Check? && Enabled(s, step) ==>
            (key in t.buckets <==> key in s.buckets && !Expired(s.buckets[key], c.window, step.request.now)))
      && (step.Fail? && Enabled(s, step) ==>
            (key in t.buckets <==> key in s.buckets && !Expired(s.buckets[key], c.window, s.flights[step.id].now)))
      && (!step.Check? && !step.Fail? ==> (key in t.buckets <==> key in s.buckets && !SucceedsAt(s, step, key)))
  {
    if step.Fail? && Enabled(s, step) {
      var r := s.flights[step.id];
      OtherKeyUntouched(c, Pruned(s.buckets, c.window, r.now), KeysOf(r), r.now, key);
    }
  }

  lemma CheckKeepsCount(c: Config, s: State, step: Step, key: string, k: nat)
    requires step.Check? && CountInv(c, s, key, k)
    ensures CountInv(c, Next(c, s, step), key, k)
  {
    var t := Next(c, s, step);
    if Enabled(s, step) {
      if Touches(step.request, key) && step.id in t.flights {
        var i :| 0 <= i < |KeysOf(step.request)| && KeysOf(step.request)[i] == key;
        assert key in t.buckets ==> t.buckets[key].count < c.maxFailures;
      } else {
        assert Flying(t, key) == Flying(s, key);
      }
    }
  }

  lemma StepKeepsCount(c: Config, s: State, step: Step, key: string, k: nat)
    requires ValidConfig(c) && CountInv(c, s, key, k) && |Flying(s, key)| <= k
    ensures CountInv(c, Next(c, s, step), key, k)
  {
    if step.Check? {
      CheckKeepsCount(c, s, step, key, k);
    } else {
      FlyingAfter(c, s, step, key);
      if FailsAt(s, step, key) {
        FailureRecorded(c, s, step, key);
      } else {
        OtherStepKeepsBucket(c, s, step, key);
      }
    }
  }

  lemma {:induction false} RunsKeepCount(c: Config, s: State, steps: seq<Step>, key: string, k: nat)
    requires ValidConfig(c) && CountInv(c, s, key, k) && Uncrowded(c, s, steps, key, k)
    ensures CountInv(c, After(c, s, steps), key, k)
    decreases |steps|
  {
    if steps != [] {
      StepKeepsCount(c, s, steps[0], key, k);
      RunsKeepCount(c, Next(c, s, steps[0]), steps[1..], key, k);
    }
  }

  /** With at most `k` requests of a key in flight together, no bucket of the key, of an address or a user name, ever
      counts more than `maxFailures + k - 1` failures. */
  lemma BucketsStayWithinTheOverlap(c: Config, s: State, steps: seq<Step>, key: string, k: nat)
    requires ValidConfig(c) && k >= 1 && CountInv(c, s, key, k) && Uncrowded(c, s, steps, key, k)
    ensures key in After(c, s, steps).buckets ==> After(c, s, steps).buckets[key].count <= c.maxFailures + k - 1
  {
    RunsKeepCount(c, s, steps, key, k);
  }

  // ---------- failures in a bucket's life ----------

  /** The failing answers of a key. */
  function Failures(c: Config, s: State, steps: seq<Step>, key: string): nat
    decreases |steps|
  {
    if steps == [] then 0
    else (if FailsAt(s, steps[0], key) then 1 else 0) + Failures(c, Next(c, s, steps[0]), steps[1..], key)
  }

  /** The key's bucket is the same one, all along the run. */
  predicate Lasts(c: Config, s: State, steps: seq<Step>, key: string)
    decreases |steps|
  {
    key in s.buckets &&
    (steps == [] ||
     var t := Next(c, s, steps[0]);
     key in t.buckets && t.buckets[key].startedAt == s.buckets[key].startedAt && Lasts(c, t, steps[1..], key))
  }

  lemma {:induction false} BucketCountsItsFailures(c: Config, s: State, steps: seq<Step>, key: string)
    requires ValidConfig(c) && Lasts(c, s, steps, key)
    ensures key in After(c, s, steps).buckets
    ensures After(c, s, steps).buckets[key].count == s.buckets[key].count + Failures(c, s, steps, key)
    decreases |steps|
  {
    if steps != [] {
      if FailsAt(s, steps[0], key) {
        FailureRecorded(c, s, steps[0], key);
      } else {
        OtherStepKeepsBucket(c, s, steps[0], key);
      }
      BucketCountsItsFailures(c, Next(c, s, steps[0]), steps[1..], key);
    }
  }

  /** So in the life of a bucket at most `maxFailures + k - 1` requests of its key fail, the one that opened it included. */
  lemma FailuresInABucketsLife(c: Config, s: State, steps: seq<Step>, key: string, k: nat)
    requires ValidConfig(c) && k >= 1 && CountInv(c, s, key, k) && Uncrowded(c, s, steps, key, k)
    requires Lasts(c, s, steps, key) && s.buckets[key].count == 1
    ensures 1 + Failures(c, s, steps, key) <= c.maxFailures + k - 1
  {
    BucketCountsItsFailures(c, s, steps, key);
    BucketsStayWithinTheOverlap(c, s, steps, key, k);
  }

  // ---------- failures in a window ----------

  /** No reading is past the window, and those of the key are in it. */
  predicate InWindow(c: Config, r: Request, key: string, from: int) {
    r.now < from + c.window && (Touches(r, key) ==> from <= r.now)
  }

  /** What a step of a window run may be: no reading past the window, no success of the key, and room for its failures. */
  predicate WindowStep(c: Config, s: State, step: Step, key: string, from: int) {
    && (step.Check? ==> InWindow(c, step.request, key, from))
    && !SucceedsAt(s, step, key)
    && (FailsAt(s, step, key) ==>
          HasRoom(c, Pruned(s.buckets, c.window, s.flights[step.id].now), s.flights[step.id].ip, key))
  }

  predicate WindowRun(c: Config, s: State, steps: seq<Step>, key: string, from: int)
    decreases |steps|
  {
    steps == [] || (WindowStep(c, s, steps[0], key, from) && WindowRun(c, Next(c, s, steps[0]), steps[1..], key, from))
  }

  /** The count of the key's bucket if it was opened in the window. */
  function WindowCount(c: Config, s: State, key: string, from: int): nat {
    if key in s.buckets && !Expired(s.buckets[key], c.window, from) then s.buckets[key].count else 0
  }

  /** Requests in flight obey the window too, and the key's bucket is either dead at its start or opened in it. */
  predicate WindowState(c: Config, s: State, key: string, from: int) {
    && (forall id | id in s.flights :: InWindow(c, s.flights[id], key, from))
    && (key in s.buckets ==> Expired(s.buckets[key], c.window, from) || s.buckets[key].startedAt >= from)
  }

  lemma WindowStepCounts(c: Config, s: State, step: Step, key: string, from: int)
    requires ValidConfig(c) && WindowState(c, s, key, from) && WindowStep(c, s, step, key, from)
    ensures var t := Next(c, s, step);
      && WindowState(c, t, key, from)
      && WindowCount(c, t, key, from) == WindowCount(c, s, key, from) + (if FailsAt(s, step, key) then 1 else 0)
  {
    if FailsAt(s, step, key) {
      FailureRecorded(c, s, step, key);
    } else {
      OtherStepKeepsBucket(c, s, step, key);
    }
  }

  lemma {:induction false} WindowRunCounts(c: Config, s: State, steps: seq<Step>, key: string, from: int)
    requires ValidConfig(c) && WindowState(c, s, key, from) && WindowRun(c, s, steps, key, from)
    ensures WindowCount(c, After(c, s, steps), key, from) == WindowCount(c, s, key, from) + Failures(c, s, steps, key)
    decreases |steps|
  {
    if steps != [] {
      WindowStepCounts(c, s, steps[0], key, from);
      WindowRunCounts(c, Next(c, s, steps[0]), steps[1..], key, from);
    }
  }

  /** In a window that starts without a live bucket at most `maxFailures + k - 1` requests of a key fail, in whatever order
      the clock readings are served: between successes, and as long as each failure finds room in the table. */
  lemma FailuresPerWindow(c: Config, s: State, steps: seq<Step>, key: string, from: int, k: nat)
    requires ValidConfig(c) && k >= 1 && CountInv(c, s, key, k) && Uncrowded(c, s, steps, key, k)
    requires WindowState(c, s, key, from) && WindowRun(c, s, steps, key, from) && WindowCount(c, s, key, from) == 0
    ensures Failures(c, s, steps, key) <= c.maxFailures + k - 1
  {
    WindowRunCounts(c, s, steps, key, from);
    BucketsStayWithinTheOverlap(c, s, steps, key, k);
  }

  /** One request of the key at a time, whatever the others do: the limit itself. */
  lemma OneAtATime(c: Config, s: State, steps: seq<Step>, key: string, from: int)
    requires ValidConfig(c) && CountInv(c, s, key, 1) && Uncrowded(c, s, steps, key, 1)
    requires WindowState(c, s, key, from) && WindowRun(c, s, steps, key, from) && WindowCount(c, s, key, from) == 0
    ensures Failures(c, s, steps, key) <= c.maxFailures
  {
    FailuresPerWindow(c, s, steps, key, from, 1);
  }
}
