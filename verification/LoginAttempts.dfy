/** Login attempts handled one after the other: check, password and record of one before those of the next. */
module LoginAttempts {
  import opened LoginThrottle

  datatype Verdict = PasswordWrong | PasswordRight | Broken

  /** One login request; its check and its record share one clock reading. */
  datatype Attempt = Attempt(ip: string, username: string, now: int, verdict: Verdict)

  predicate Admitted(c: Config, buckets: Buckets, a: Attempt) {
    Admits(c, Pruned(buckets, c.window, a.now), Keys(a.ip, a.username))
  }

  function After(c: Config, buckets: Buckets, a: Attempt): Buckets {
    var pruned, keys := Pruned(buckets, c.window, a.now), Keys(a.ip, a.username);
    if !Admits(c, pruned, keys) then pruned
    else
      match a.verdict
      case PasswordWrong => RecordedAll(c, Pruned(pruned, c.window, a.now), keys, a.now)
      case PasswordRight => Removed(pruned, keys)
      case Broken => pruned
  }

  /** The whole request, as the handler runs it. */
  method Login(throttle: Throttle, a: Attempt) returns (admitted: bool)
    modifies throttle
    ensures admitted == Admitted(throttle.config, old(throttle.buckets), a)
    ensures throttle.buckets == After(throttle.config, old(throttle.buckets), a)
  {
    admitted := throttle.Allow(a.ip, a.username, a.now);
    if !admitted {
      return;
    }
    match a.verdict {
      case PasswordWrong => throttle.RecordFailure(a.ip, a.username, a.now);
      case PasswordRight => throttle.RecordSuccess(a.ip, a.username);
      case Broken =>
    }
  }

  // ---------- which failures are recorded ----------

  /** A bucket as far as it is live at an instant. */
  predicate Live(c: Config, buckets: Buckets, key: string, now: int) {
    key in buckets && !Expired(buckets[key], c.window, now)
  }

  predicate Touches(a: Attempt, key: string) {
    key in Keys(a.ip, a.username)
  }

  predicate RoomAt(c: Config, buckets: Buckets, a: Attempt, key: string) {
    HasRoom(c, Pruned(buckets, c.window, a.now), a.ip, key)
  }

  lemma PruningTwice(buckets: Buckets, window: int, now: int)
    ensures Pruned(Pruned(buckets, window, now), window, now) == Pruned(buckets, window, now)
  {
  }

  /** An admitted failure always has room in the bucket of its address, also when that fills the table. */
  lemma AddressFailureHasRoom(c: Config, buckets: Buckets, a: Attempt)
    requires Admitted(c, buckets, a)
    ensures RoomAt(c, buckets, a, IpKey(a.ip))
  {
    assert Keys(a.ip, a.username)[0] == IpKey(a.ip);
  }

  /** An admitted failure reaches the bucket of its user name exactly if one of the two buckets is live or the table has
      room for both. */
  lemma UserFailureRecordedIff(c: Config, buckets: Buckets, a: Attempt)
    requires a.username != "" && a.verdict.PasswordWrong? && Admitted(c, buckets, a)
    ensures var user := "user:" + a.username;
      && (user in After(c, buckets, a) <==> RoomAt(c, buckets, a, user))
      && (RoomAt(c, buckets, a, user)
          <==> Live(c, buckets, user, a.now) || Live(c, buckets, IpKey(a.ip), a.now)
               || |Pruned(buckets, c.window, a.now)| + 2 <= c.maxEntries)
  {
    var user, pruned := "user:" + a.username, Pruned(buckets, c.window, a.now);
    KeysDiffer(a.ip, a.username);
    PruningTwice(buckets, c.window, a.now);
    assert Keys(a.ip, a.username)[1] == user && Keys(a.ip, a.username)[0] == IpKey(a.ip);
    FailureReachesBucketIff(c, pruned, a.ip, a.username, a.now, user);
  }

  lemma FailureReachesBucket(c: Config, buckets: Buckets, a: Attempt, key: string)
    requires Touches(a, key) && a.verdict.PasswordWrong? && Admitted(c, buckets, a) && RoomAt(c, buckets, a, key)
    ensures var live, next := Live(c, buckets, key, a.now), After(c, buckets, a);
            && key in next && (live ==> buckets[key].count < c.maxFailures)
            && next[key] == if live then Bucket(buckets[key].count + 1, buckets[key].startedAt) else Bucket(1, a.now)
  {
    PruningTwice(buckets, c.window, a.now);
    FailureReachesBucketIff(c, Pruned(buckets, c.window, a.now), a.ip, a.username, a.now, key);
  }

  /** Any other attempt leaves a key's live bucket as it is. */
  lemma OtherAttemptKeepsBucket(c: Config, buckets: Buckets, a: Attempt, key: string)
    requires !(Touches(a, key) && Admitted(c, buckets, a) && !a.verdict.Broken?)
    ensures var next := After(c, buckets, a);
            (key in next <==> Live(c, buckets, key, a.now)) && (key in next ==> next[key] == buckets[key])
  {
    PruningTwice(buckets, c.window, a.now);
    if Admitted(c, buckets, a) && !a.verdict.Broken? {
      OtherKeyUntouched(c, Pruned(buckets, c.window, a.now), Keys(a.ip, a.username), a.now, key);
    }
  }

  // ---------- failures per key ----------

  predicate InOrder(attempts: seq<Attempt>, from: int)
    decreases |attempts|
  {
    attempts == [] || (attempts[0].now >= from && InOrder(attempts[1..], attempts[0].now))
  }

  /** No admitted success removes the key. */
  predicate NoSuccess(c: Config, buckets: Buckets, attempts: seq<Attempt>, key: string)
    decreases |attempts|
  {
    attempts == [] ||
    (&& !(Touches(attempts[0], key) && attempts[0].verdict.PasswordRight? && Admitted(c, buckets, attempts[0]))
     && NoSuccess(c, After(c, buckets, attempts[0]), attempts[1..], key))
  }

  predicate FailsAt(c: Config, buckets: Buckets, a: Attempt, key: string) {
    Touches(a, key) && a.verdict.PasswordWrong? && Admitted(c, buckets, a)
  }

  /** Every admitted failure of the key finds room for it. */
  predicate FailuresHaveRoom(c: Config, buckets: Buckets, attempts: seq<Attempt>, key: string)
    decreases |attempts|
  {
    attempts == [] ||
    (&& (FailsAt(c, buckets, attempts[0], key) ==> RoomAt(c, buckets, attempts[0], key))
     && FailuresHaveRoom(c, After(c, buckets, attempts[0]), attempts[1..], key))
  }

  /** Admitted failures of the key within one window length from `lo`. */
  function Failures(c: Config, buckets: Buckets, attempts: seq<Attempt>, key: string, lo: int): nat
    decreases |attempts|
  {
    if attempts == [] then 0
    else
      (if FailsAt(c, buckets, attempts[0], key) && lo <= attempts[0].now < lo + c.window then 1 else 0)
      + Failures(c, After(c, buckets, attempts[0]), attempts[1..], key, lo)
  }

  /** How many more failures fit one window length from `lo`, given the bucket and the clock. */
  function Allowance(c: Config, buckets: Buckets, key: string, lo: int, now: int): int {
    if now < lo then 2 * c.maxFailures
    else if Live(c, buckets, key, now) then
      (if buckets[key].startedAt < lo then 2 * c.maxFailures else c.maxFailures) - buckets[key].count
    else c.maxFailures
  }

  predicate BucketOk(c: Config, buckets: Buckets, key: string, now: int) {
    key in buckets ==> buckets[key].count <= c.maxFailures && buckets[key].startedAt <= now
  }

  lemma {:induction false} FailuresWithinAllowance(c: Config, buckets: Buckets, attempts: seq<Attempt>, key: string, lo: int, now: int)
    requires ValidConfig(c) && InOrder(attempts, now) && NoSuccess(c, buckets, attempts, key)
    requires FailuresHaveRoom(c, buckets, attempts, key) && BucketOk(c, buckets, key, now)
    ensures now < lo + c.window ==> Failures(c, buckets, attempts, key, lo) <= Allowance(c, buckets, key, lo, now)
    ensures now >= lo + c.window ==> Failures(c, buckets, attempts, key, lo) == 0
    decreases |attempts|
  {
    if attempts != [] {
      var a := attempts[0];
      if FailsAt(c, buckets, a, key) {
        FailureReachesBucket(c, buckets, a, key);
      } else {
        OtherAttemptKeepsBucket(c, buckets, a, key);
      }
      FailuresWithinAllowance(c, After(c, buckets, a), attempts[1..], key, lo, a.now);
    }
  }

  /** Between successes a key, of an address or a user name, gets at most `maxFailures` failed attempts admitted in a
      window that starts without a live bucket, provided each of them finds room in the table ... */
  lemma FailuresPerBucketWindow(c: Config, buckets: Buckets, attempts: seq<Attempt>, key: string, start: int)
    requires ValidConfig(c) && InOrder(attempts, start) && NoSuccess(c, buckets, attempts, key)
    requires FailuresHaveRoom(c, buckets, attempts, key)
    requires BucketOk(c, buckets, key, start) && !Live(c, buckets, key, start)
    ensures Failures(c, buckets, attempts, key, start) <= c.maxFailures
  {
    FailuresWithinAllowance(c, buckets, attempts, key, start, start);
  }

  /** ... and at most twice as many in any window length whatsoever. */
  lemma FailuresPerAnyWindow(c: Config, attempts: seq<Attempt>, key: string, from: int, lo: int)
    requires ValidConfig(c) && InOrder(attempts, from) && NoSuccess(c, map[], attempts, key)
    requires FailuresHaveRoom(c, map[], attempts, key)
    ensures Failures(c, map[], attempts, key, lo) <= 2 * c.maxFailures
  {
    FailuresWithinAllowance(c, map[], attempts, key, lo, from);
  }

  lemma AddressKeyIsFirst(a: Attempt, ip: string)
    requires Touches(a, IpKey(ip))
    ensures IpKey(ip) == IpKey(a.ip)
  {
    KeysDiffer(ip, a.username);
  }

  /** Failures of an address always find room. */
  lemma {:induction false} AddressFailuresHaveRoom(c: Config, buckets: Buckets, attempts: seq<Attempt>, ip: string)
    ensures FailuresHaveRoom(c, buckets, attempts, IpKey(ip))
    decreases |attempts|
  {
    if attempts != [] {
      if FailsAt(c, buckets, attempts[0], IpKey(ip)) {
        AddressKeyIsFirst(attempts[0], ip);
        AddressFailureHasRoom(c, buckets, attempts[0]);
      }
      AddressFailuresHaveRoom(c, After(c, buckets, attempts[0]), attempts[1..], ip);
    }
  }

  /** So for addresses the bounds hold of every run. */
  lemma AddressFailuresPerBucketWindow(c: Config, buckets: Buckets, attempts: seq<Attempt>, ip: string, start: int)
    requires ValidConfig(c) && InOrder(attempts, start) && NoSuccess(c, buckets, attempts, IpKey(ip))
    requires BucketOk(c, buckets, IpKey(ip), start) && !Live(c, buckets, IpKey(ip), start)
    ensures Failures(c, buckets, attempts, IpKey(ip), start) <= c.maxFailures
  {
    AddressFailuresHaveRoom(c, buckets, attempts, ip);
    FailuresPerBucketWindow(c, buckets, attempts, IpKey(ip), start);
  }

  lemma AddressFailuresPerAnyWindow(c: Config, attempts: seq<Attempt>, ip: string, from: int, lo: int)
    requires ValidConfig(c) && InOrder(attempts, from) && NoSuccess(c, map[], attempts, IpKey(ip))
    ensures Failures(c, map[], attempts, IpKey(ip), lo) <= 2 * c.maxFailures
  {
    AddressFailuresHaveRoom(c, map[], attempts, ip);
    FailuresPerAnyWindow(c, attempts, IpKey(ip), from, lo);
  }

  /** A full table refuses every address it has no live bucket for. */
  lemma FullTableFailsClosed(c: Config, buckets: Buckets, a: Attempt)
    requires |Pruned(buckets, c.window, a.now)| >= c.maxEntries && !Live(c, buckets, IpKey(a.ip), a.now)
    ensures !Admitted(c, buckets, a) && After(c, buckets, a) == Pruned(buckets, c.window, a.now)
  {
    assert Keys(a.ip, a.username)[0] == IpKey(a.ip);
  }

  // ---------- the condition is needed for user names ----------

  lemma KeysOf(ip: string)
    requires ip != ""
    ensures Keys(ip, "u") == ["ip:" + ip, "user:u"]
    ensures Keys(ip, "u")[1..] == ["user:u"] && ["user:u"][1..] == []
  {
    assert "user:" + "u" == "user:u";
  }

  /** A table of one entry: the first failure of a user is admitted and fills the table with its address alone. */
  lemma UserFailureCanGoUnrecorded()
    ensures var c, a := Config(1, 10, 1), Attempt("h", "u", 0, PasswordWrong);
      && Admitted(c, map[], a) && !RoomAt(c, map[], a, "user:u") && "user:u" !in After(c, map[], a)
  {
    var c, a := Config(1, 10, 1), Attempt("h", "u", 0, PasswordWrong);
    assert Pruned(map[], 10, 0) == map[];
    KeysOf("h");
    assert "user:" + a.username == "user:u";
    UserFailureRecordedIff(c, map[], a);
  }

  lemma RecordBoth(c: Config, buckets: Buckets, ip: string, now: int)
    requires ip != ""
    ensures RecordedAll(c, buckets, Keys(ip, "u"), now) == Recorded(c, Recorded(c, buckets, "ip:" + ip, now), "user:u", now)
  {
    KeysOf(ip);
  }

  const FULL_BUT_ONE: Buckets := map["ip:x" := Bucket(1, 0), "user:w" := Bucket(1, 0)]
  const FROM_H := Attempt("h", "u", 9, PasswordWrong)
  const FROM_G := Attempt("g", "u", 10, PasswordWrong)

  lemma FirstFailureFills(c: Config)
    requires c == Config(1, 10, 3)
    ensures |Pruned(FULL_BUT_ONE, 10, 9)| == 2 && "user:u" !in FULL_BUT_ONE
    ensures Admitted(c, FULL_BUT_ONE, FROM_H) && !RoomAt(c, FULL_BUT_ONE, FROM_H, "user:u")
    ensures After(c, FULL_BUT_ONE, FROM_H) == FULL_BUT_ONE["ip:h" := Bucket(1, 9)]
  {
    var full := FULL_BUT_ONE;
    assert "ip:x"[0] == 'i' && "user:w"[0] == 'u';
    assert full.Keys == {"ip:x", "user:w"} && "ip:x" != "user:w" && "ip:h"[3] != "ip:x"[3] && "user:u"[5] != "user:w"[5];
    assert Pruned(full, 10, 9) == full && Pruned(Pruned(full, 10, 9), 10, 9) == full && |full| == |full.Keys| == 2;
    KeysOf("h");
    assert "ip:" + "h" == "ip:h";
    RecordBoth(c, full, "h", 9);
    RecordedSize(c, full, "ip:h", 9);
    assert "user:u" !in Recorded(c, full, "ip:h", 9);
  }

  lemma SecondFailureIsAdmitted(c: Config)
    requires c == Config(1, 10, 3)
    ensures Admitted(c, FULL_BUT_ONE["ip:h" := Bucket(1, 9)], FROM_G)
  {
    var next, left: Buckets := FULL_BUT_ONE["ip:h" := Bucket(1, 9)], map["ip:h" := Bucket(1, 9)];
    assert "ip:h"[3] != "ip:x"[3] && "ip:h"[0] != "user:w"[0];
    assert Pruned(next, 10, 10) == left && |left| == 1;
    KeysOf("g");
    assert "ip:g"[3] != "ip:h"[3] && "user:u"[0] != "ip:h"[0];
  }

  /** A table of three entries holding two that are about to expire: the user's first failure takes the last place for its
      address alone, so a second one from another address is admitted within the window although one is the limit. */
  lemma UserBoundCanFail()
    ensures var c := Config(1, 10, 3);
      && InOrder([FROM_H, FROM_G], 9) && NoSuccess(c, FULL_BUT_ONE, [FROM_H, FROM_G], "user:u")
      && BucketOk(c, FULL_BUT_ONE, "user:u", 9) && !Live(c, FULL_BUT_ONE, "user:u", 9)
      && !RoomAt(c, FULL_BUT_ONE, FROM_H, "user:u")
      && Failures(c, FULL_BUT_ONE, [FROM_H, FROM_G], "user:u", 9) == 2 > c.maxFailures
  {
    var c, next := Config(1, 10, 3), FULL_BUT_ONE["ip:h" := Bucket(1, 9)];
    FirstFailureFills(c);
    SecondFailureIsAdmitted(c);
    KeysOf("h");
    KeysOf("g");
    assert [FROM_H, FROM_G][1..] == [FROM_G] && [FROM_G][1..] == [];
    assert Touches(FROM_H, "user:u") && Touches(FROM_G, "user:u");
    OneFailure(c, next);
  }

  lemma OneFailure(c: Config, next: Buckets)
    requires c == Config(1, 10, 3) && Admitted(c, next, FROM_G) && Touches(FROM_G, "user:u")
    ensures Failures(c, next, [FROM_G], "user:u", 9) == 1
  {
    assert [FROM_G][1..] == [];
    assert Failures(c, After(c, next, FROM_G), [], "user:u", 9) == 0;
  }
}
