/** How overlapping requests reach the bound of the throttle, and how they escape it when the table has no room. */
module LoginOverlap {
  import opened Maps
  import opened LoginThrottle
  import opened LoginRequests

  /** One request repeated: admitted under the ids `lo` up to `hi` and not yet answered. */
  function InFlight(r: Request, lo: nat, hi: nat): (flights: map<nat, Request>)
    requires lo <= hi
    ensures |flights| == hi - lo
    ensures forall id :: id in flights <==> lo <= id < hi
    ensures forall id | id in flights :: flights[id] == r
    decreases hi
  {
    if lo == hi then map[] else InFlight(r, lo, hi - 1)[hi - 1 := r]
  }

  /** A table with nothing but the failures of that request, counted for its address and its user name. */
  function Failed(r: Request, failed: nat): Buckets {
    if failed == 0 then map[] else map key | key in KeysOf(r) :: Bucket(failed, r.now)
  }

  function StateAt(r: Request, failed: nat, lo: nat, hi: nat): State
    requires lo <= hi
  {
    State(Failed(r, failed), InFlight(r, lo, hi))
  }

  /** One of the request's keys, in a table that has an entry for each of them. */
  predicate Counted(c: Config, r: Request, key: string) {
    ValidConfig(c) && |KeysOf(r)| <= c.maxEntries && key in KeysOf(r)
  }

  /** A run within the window and the overlap, with so many failures, that leaves the table with `total` of them. */
  predicate Reaches(c: Config, s: State, steps: seq<Step>, r: Request, key: string, k: nat, failures: nat, total: nat)
    decreases |steps|
  {
    && |Flying(s, key)| <= k
    && if steps == [] then failures == 0 && s.buckets == Failed(r, total)
       else
         var one := if FailsAt(s, steps[0], key) then 1 else 0;
         && WindowStep(c, s, steps[0], key, r.now) && one <= failures
         && Reaches(c, Next(c, s, steps[0]), steps[1..], r, key, k, failures - one, total)
  }

  lemma {:induction false} ReachesMeans(c: Config, s: State, steps: seq<Step>, r: Request, key: string, k: nat, failures: nat, total: nat)
    requires Reaches(c, s, steps, r, key, k, failures, total)
    ensures Uncrowded(c, s, steps, key, k)
    ensures WindowRun(c, s, steps, key, r.now)
    ensures Failures(c, s, steps, key) == failures
    ensures After(c, s, steps).buckets == Failed(r, total)
    decreases |steps|
  {
    if steps != [] {
      var one := if FailsAt(s, steps[0], key) then 1 else 0;
      ReachesMeans(c, Next(c, s, steps[0]), steps[1..], r, key, k, failures - one, total);
    }
  }

  ghost predicate CanReach(c: Config, s: State, r: Request, key: string, k: nat, failures: nat, total: nat) {
    exists steps: seq<Step> :: Reaches(c, s, steps, r, key, k, failures, total)
  }

  lemma StepThenRun(c: Config, s: State, step: Step, r: Request, key: string, k: nat, failures: nat, total: nat)
    requires |Flying(s, key)| <= k && WindowStep(c, s, step, key, r.now)
    requires CanReach(c, Next(c, s, step), r, key, k, failures, total)
    ensures CanReach(c, s, r, key, k, failures + (if FailsAt(s, step, key) then 1 else 0), total)
  {
    var rest :| Reaches(c, Next(c, s, step), rest, r, key, k, failures, total);
    assert ([step] + rest)[0] == step && ([step] + rest)[1..] == rest;
    assert Reaches(c, s, [step] + rest, r, key, k, failures + (if FailsAt(s, step, key) then 1 else 0), total);
  }

  lemma FlyingInFlight(r: Request, key: string, failed: nat, lo: nat, hi: nat)
    requires lo <= hi && key in KeysOf(r)
    ensures |Flying(StateAt(r, failed, lo, hi), key)| == hi - lo
  {
    assert Flying(StateAt(r, failed, lo, hi), key) == InFlight(r, lo, hi).Keys;
  }

  lemma KeysHaveRoom(c: Config, r: Request, key: string, failed: nat)
    requires Counted(c, r, key)
    ensures HasRoom(c, Failed(r, failed), r.ip, key)
  {
    assert KeysOf(r)[0] == IpKey(r.ip);
    if failed == 0 && key != IpKey(r.ip) {
      assert |KeysOf(r)| == 2;
    }
  }

  lemma OneMoreFailure(c: Config, r: Request, failed: nat)
    requires ValidConfig(c) && |KeysOf(r)| <= c.maxEntries
    ensures RecordedAll(c, Failed(r, failed), KeysOf(r), r.now) == Failed(r, failed + 1)
  {
    var after := RecordedAll(c, Failed(r, failed), KeysOf(r), r.now);
    forall key
      ensures key in after <==> key in KeysOf(r)
      ensures key in after ==> after[key] == Bucket(failed + 1, r.now)
    {
      if key in KeysOf(r) {
        KeysHaveRoom(c, r, key, failed);
        FailureReachesBucketIff(c, Failed(r, failed), r.ip, r.username, r.now, key);
      } else {
        OtherKeyUntouched(c, Failed(r, failed), KeysOf(r), r.now, key);
      }
    }
    assert after == Failed(r, failed + 1);
  }

  lemma NothingExpires(c: Config, r: Request, failed: nat)
    requires ValidConfig(c)
    ensures Pruned(Failed(r, failed), c.window, r.now) == Failed(r, failed)
    ensures failed < c.maxFailures ==> Admits(c, Failed(r, failed), KeysOf(r))
  {
  }

  lemma CheckStep(c: Config, r: Request, key: string, failed: nat, lo: nat, hi: nat)
    requires Counted(c, r, key) && lo <= hi && failed < c.maxFailures
    ensures Next(c, StateAt(r, failed, lo, hi), Check(hi, r)) == StateAt(r, failed, lo, hi + 1)
    ensures WindowStep(c, StateAt(r, failed, lo, hi), Check(hi, r), key, r.now)
  {
    NothingExpires(c, r, failed);
  }

  lemma FailStep(c: Config, r: Request, key: string, failed: nat, lo: nat, hi: nat)
    requires Counted(c, r, key) && lo < hi
    ensures Next(c, StateAt(r, failed, lo, hi), Fail(lo)) == StateAt(r, failed + 1, lo + 1, hi)
    ensures WindowStep(c, StateAt(r, failed, lo, hi), Fail(lo), key, r.now)
    ensures FailsAt(StateAt(r, failed, lo, hi), Fail(lo), key)
  {
    NothingExpires(c, r, failed);
    OneMoreFailure(c, r, failed);
    KeysHaveRoom(c, r, key, failed);
    assert Without(InFlight(r, lo, hi), lo) == InFlight(r, lo + 1, hi);
  }

  lemma CheckThenRun(c: Config, r: Request, key: string, failed: nat, lo: nat, hi: nat, k: nat, failures: nat, total: nat)
    requires Counted(c, r, key) && lo <= hi <= lo + k && failed < c.maxFailures
    requires CanReach(c, StateAt(r, failed, lo, hi + 1), r, key, k, failures, total)
    ensures CanReach(c, StateAt(r, failed, lo, hi), r, key, k, failures, total)
  {
    FlyingInFlight(r, key, failed, lo, hi);
    CheckStep(c, r, key, failed, lo, hi);
    StepThenRun(c, StateAt(r, failed, lo, hi), Check(hi, r), r, key, k, failures, total);
  }

  lemma FailThenRun(c: Config, r: Request, key: string, failed: nat, lo: nat, hi: nat, k: nat, failures: nat, total: nat)
    requires Counted(c, r, key) && lo < hi <= lo + k
    requires CanReach(c, StateAt(r, failed + 1, lo + 1, hi), r, key, k, failures, total)
    ensures CanReach(c, StateAt(r, failed, lo, hi), r, key, k, failures + 1, total)
  {
    FlyingInFlight(r, key, failed, lo, hi);
    FailStep(c, r, key, failed, lo, hi);
    StepThenRun(c, StateAt(r, failed, lo, hi), Fail(lo), r, key, k, failures, total);
  }

  lemma {:induction false} FailAll(c: Config, r: Request, key: string, failed: nat, lo: nat, hi: nat, k: nat)
    requires Counted(c, r, key) && lo <= hi <= lo + k
    ensures CanReach(c, StateAt(r, failed, lo, hi), r, key, k, hi - lo, failed + hi - lo)
    decreases hi - lo
  {
    if lo == hi {
      FlyingInFlight(r, key, failed, lo, hi);
      assert Reaches(c, StateAt(r, failed, lo, hi), [], r, key, k, 0, failed);
    } else {
      FailAll(c, r, key, failed + 1, lo + 1, hi, k);
      FailThenRun(c, r, key, failed, lo, hi, k, hi - lo - 1, failed + hi - lo);
    }
  }

  lemma {:induction false} CheckThenFailAll(c: Config, r: Request, key: string, failed: nat, lo: nat, hi: nat, k: nat)
    requires Counted(c, r, key) && lo <= hi <= lo + k && failed < c.maxFailures
    ensures CanReach(c, StateAt(r, failed, lo, hi), r, key, k, k, failed + k)
    decreases lo + k - hi
  {
    if hi == lo + k {
      FailAll(c, r, key, failed, lo, hi, k);
    } else {
      CheckThenFailAll(c, r, key, failed, lo, hi + 1, k);
      CheckThenRun(c, r, key, failed, lo, hi, k, k, failed + k);
    }
  }

  /** After so many failures one by one, the rest of the bound can still be reached. */
  ghost predicate OnTheWay(c: Config, r: Request, key: string, failed: nat, k: nat)
    requires failed < c.maxFailures
  {
    var bound := c.maxFailures - 1 + k;
    CanReach(c, StateAt(r, failed, failed, failed), r, key, k, bound - failed, bound)
  }

  lemma OneFailureLess(c: Config, r: Request, key: string, failed: nat, k: nat)
    requires Counted(c, r, key) && failed + 1 < c.maxFailures && k >= 1 && OnTheWay(c, r, key, failed + 1, k)
    ensures OnTheWay(c, r, key, failed, k)
  {
    var bound := c.maxFailures - 1 + k;
    var failures := bound - failed - 1;
    FailThenRun(c, r, key, failed, failed, failed + 1, k, failures, bound);
    CheckThenRun(c, r, key, failed, failed, failed, k, failures + 1, bound);
    assert failures + 1 == bound - failed;
  }

  lemma {:induction false} OneByOneThenTogether(c: Config, r: Request, key: string, failed: nat, k: nat)
    requires Counted(c, r, key) && failed < c.maxFailures && k >= 1
    ensures OnTheWay(c, r, key, failed, k)
    decreases c.maxFailures - failed
  {
    if failed == c.maxFailures - 1 {
      CheckThenFailAll(c, r, key, failed, failed, failed, k);
    } else {
      OneByOneThenTogether(c, r, key, failed + 1, k);
      OneFailureLess(c, r, key, failed, k);
    }
  }

  /** For every limit, every overlap and each key of a request, its address or its user name, a run reaches the bound in a
      table that has an entry for each: all but one of the allowed failures one by one, and then `k` requests that are all
      admitted before the first of them fails. */
  lemma OverlapBoundIsReached(c: Config, r: Request, key: string, k: nat) returns (steps: seq<Step>)
    requires ValidConfig(c) && k >= 1 && key in KeysOf(r) && |KeysOf(r)| <= c.maxEntries
    ensures var start := State(map[], map[]);
      && CountInv(c, start, key, k) && Uncrowded(c, start, steps, key, k)
      && WindowState(c, start, key, r.now) && WindowRun(c, start, steps, key, r.now)
      && Failures(c, start, steps, key) == c.maxFailures + k - 1
      && key in After(c, start, steps).buckets
      && After(c, start, steps).buckets[key] == Bucket(c.maxFailures + k - 1, r.now)
  {
    var bound := c.maxFailures - 1 + k;
    OneByOneThenTogether(c, r, key, 0, k);
    steps :| Reaches(c, StateAt(r, 0, 0, 0), steps, r, key, k, bound, bound);
    ReachesMeans(c, StateAt(r, 0, 0, 0), steps, r, key, k, bound, bound);
  }

  /** The entry is needed: a table of one entry never opens a bucket for a user name, as every failure needs it for its address. */
  lemma {:induction false} SingleEntryCountsNoName(c: Config, s: State, steps: seq<Step>, username: string)
    requires c.maxEntries <= 1 && "user:" + username !in s.buckets
    ensures "user:" + username !in After(c, s, steps).buckets
    decreases |steps|
  {
    if steps != [] {
      var key := "user:" + username;
      if FailsAt(s, steps[0], key) {
        var r := s.flights[steps[0].id];
        KeysDiffer(r.ip, username);
        FailureRecorded(c, s, steps[0], key);
        NoRoomForBoth(c, Pruned(s.buckets, c.window, r.now), r.ip, key);
      } else {
        OtherStepKeepsBucket(c, s, steps[0], key);
      }
      SingleEntryCountsNoName(c, Next(c, s, steps[0]), steps[1..], username);
    }
  }

  lemma NoRoomForBoth(c: Config, pruned: Buckets, ip: string, key: string)
    requires c.maxEntries <= 1 && key !in pruned && key != IpKey(ip)
    ensures !HasRoom(c, pruned, ip, key)
  {
    if IpKey(ip) in pruned {
      SubsetSize({IpKey(ip)}, pruned.Keys);
    }
  }

  // ---------- a run that escapes the bound ----------

  const TINY := Config(1, 10, 1)
  const G := Request("g", "", 0)
  const H := Request("h", "", 0)
  const G_FAILED: Buckets := map["ip:g" := Bucket(1, 0)]
  const ESCAPE := [Check(0, G), Check(1, G), Check(2, H), Fail(0), Fail(2), Succeed(1), Check(3, H), Fail(3)]

  lemma TinyKeys()
    ensures KeysOf(G) == ["ip:g"] && KeysOf(H) == ["ip:h"] && "ip:g" != "ip:h"
  {
    assert "ip:" + "g" == "ip:g" && "ip:" + "h" == "ip:h" && "ip:g"[3] != "ip:h"[3];
  }

  lemma TinyCheck(flights: map<nat, Request>, id: nat, r: Request)
    requires (r == G || r == H) && id !in flights
    ensures Next(TINY, State(map[], flights), Check(id, r)) == State(map[], flights[id := r])
  {
    TinyKeys();
    assert Pruned(map[], 10, 0) == map[];
  }

  lemma TinyFail(buckets: Buckets, flights: map<nat, Request>, id: nat)
    requires id in flights && (flights[id] == G || flights[id] == H) && (buckets == map[] || buckets == G_FAILED)
    ensures Next(TINY, State(buckets, flights), Fail(id))
            == State(if buckets == map[] then map[KeysOf(flights[id])[0] := Bucket(1, 0)]
                     else if flights[id] == G then map["ip:g" := Bucket(2, 0)] else G_FAILED,
                     Without(flights, id))
  {
    TinyKeys();
    var keys := KeysOf(flights[id]);
    assert Pruned(buckets, 10, 0) == buckets && keys[1..] == [];
    assert RecordedAll(TINY, buckets, keys, 0) == Recorded(TINY, buckets, keys[0], 0);
    assert buckets == G_FAILED ==> buckets.Keys == {"ip:g"} && |buckets| == 1;
  }

  /** The states the run goes through. */
  function EscapeState(i: nat): State
    requires i <= 8
  {
    if i == 0 then State(map[], map[])
    else if i == 1 then State(map[], map[0 := G])
    else if i == 2 then State(map[], map[0 := G, 1 := G])
    else if i == 3 then State(map[], map[0 := G, 1 := G, 2 := H])
    else if i == 4 then State(G_FAILED, map[1 := G, 2 := H])
    else if i == 5 then State(G_FAILED, map[1 := G])
    else if i == 6 then State(map[], map[])
    else if i == 7 then State(map[], map[3 := H])
    else State(map["ip:h" := Bucket(1, 0)], map[])
  }

  lemma EscapeStep(i: nat)
    requires i < 8
    ensures Next(TINY, EscapeState(i), ESCAPE[i]) == EscapeState(i + 1)
  {
    TinyKeys();
    var s := EscapeState(i);
    if ESCAPE[i].Check? {
      TinyCheck(s.flights, ESCAPE[i].id, ESCAPE[i].request);
    } else if ESCAPE[i].Fail? {
      TinyFail(s.buckets, s.flights, ESCAPE[i].id);
      assert Without(s.flights, ESCAPE[i].id) == EscapeState(i + 1).flights;
    } else {
      assert Without(s.flights, 1) == map[] && Removed(G_FAILED, ["ip:g"]) == map[];
    }
  }

  lemma EscapeFlying(i: nat)
    requires i <= 8
    ensures |Flying(EscapeState(i), "ip:h")| <= 1
    ensures i < 8 ==> (FailsAt(EscapeState(i), ESCAPE[i], "ip:h") <==> i == 4 || i == 7)
  {
    TinyKeys();
    var flying := Flying(EscapeState(i), "ip:h");
    assert flying <= {2} || flying <= {3};
    SubsetSize(flying, if flying <= {2} then {2} else {3});
  }

  lemma {:induction false} EscapeFrom(i: nat)
    requires i <= 8
    ensures Uncrowded(TINY, EscapeState(i), ESCAPE[i..], "ip:h", 1)
    ensures Failures(TINY, EscapeState(i), ESCAPE[i..], "ip:h") == (if i <= 4 then 2 else if i <= 7 then 1 else 0)
    decreases 8 - i
  {
    EscapeFlying(i);
    if i < 8 {
      EscapeStep(i);
      EscapeFrom(i + 1);
      assert ESCAPE[i..][0] == ESCAPE[i] && ESCAPE[i..][1..] == ESCAPE[i + 1..];
    }
  }

  /** Overlapping requests of other addresses can take the last place of the table between the check and the record of a
      failure, so an address needs the room condition too: here, with one entry, one allowed failure and never two requests
      of the address together, two requests of `h` fail at one instant. */
  lemma UnrecordedFailureEscapesTheBound()
    ensures var start := State(map[], map[]);
      && CountInv(TINY, start, "ip:h", 1) && Uncrowded(TINY, start, ESCAPE, "ip:h", 1)
      && !HasRoom(TINY, Pruned(G_FAILED, 10, 0), "h", "ip:h")
      && Failures(TINY, start, ESCAPE, "ip:h") == 2 > TINY.maxFailures + 1 - 1
  {
    EscapeFrom(0);
    assert ESCAPE[0..] == ESCAPE;
    TinyKeys();
    assert Pruned(G_FAILED, 10, 0) == G_FAILED && |G_FAILED| == |G_FAILED.Keys| == 1 by {
      assert G_FAILED.Keys == {"ip:g"};
    }
  }
}
