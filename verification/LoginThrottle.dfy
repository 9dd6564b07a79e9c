/** The login throttle: failure buckets per address and per user name in a bounded table. */
module LoginThrottle {
  datatype Bucket = Bucket(count: nat, startedAt: int)

  type Buckets = map<string, Bucket>

  datatype Config = Config(maxFailures: nat, window: int, maxEntries: nat)

  predicate ValidConfig(c: Config) {
    c.maxFailures > 0 && c.window > 0 && c.maxEntries > 0
  }

  /** Limits that are not positive are replaced: 5 failures, 5 minutes, 4096 entries. */
  function NewConfig(maxFailures: int, window: int, maxEntries: int): (c: Config)
    ensures ValidConfig(c)
    ensures c.maxFailures == (if maxFailures > 0 then maxFailures else 5)
    ensures c.window == (if window > 0 then window else 300_000_000_000)
    ensures c.maxEntries == (if maxEntries > 0 then maxEntries else 4096)
  {
    Config(if maxFailures <= 0 then 5 else maxFailures, if window <= 0 then 300_000_000_000 else window,
           if maxEntries <= 0 then 4096 else maxEntries)
  }

  function IpKey(ip: string): string {
    "ip:" + (if ip == "" then "unknown" else ip)
  }

  /** The keys of an attempt; address and user name are already trimmed and the name is in lower case. */
  function Keys(ip: string, username: string): seq<string> {
    [IpKey(ip)] + (if username == "" then [] else ["user:" + username])
  }

  /** An attempt counts against its address, "unknown" if it has none, and against its user name if it has one. */
  lemma KeysOfAnAttempt(ip: string, username: string, key: string)
    ensures key in Keys(ip, username) <==>
              || (ip != "" && key == "ip:" + ip) || (ip == "" && key == "ip:unknown")
              || (username != "" && key == "user:" + username)
    ensures Keys(ip, username)[0] == "ip:" + (if ip == "" then "unknown" else ip)
  {
    assert "ip:" + "unknown" == "ip:unknown";
    assert Keys(ip, username)[0] == IpKey(ip);
  }

  predicate Expired(b: Bucket, window: int, now: int) {
    now >= b.startedAt + window
  }

  function Pruned(buckets: Buckets, window: int, now: int): Buckets {
    map key | key in buckets && !Expired(buckets[key], window, now) :: buckets[key]
  }

  /** A full bucket refuses, and so does a full table for a key it does not hold. */
  predicate Admits(c: Config, buckets: Buckets, keys: seq<string>) {
    forall i | 0 <= i < |keys| ::
      if keys[i] in buckets then buckets[keys[i]].count < c.maxFailures else |buckets| < c.maxEntries
  }

  function Recorded(c: Config, buckets: Buckets, key: string, now: int): Buckets {
    if key in buckets then buckets[key := Bucket(buckets[key].count + 1, buckets[key].startedAt)]
    else if |buckets| >= c.maxEntries then buckets
    else buckets[key := Bucket(1, now)]
  }

  function RecordedAll(c: Config, buckets: Buckets, keys: seq<string>, now: int): Buckets
    decreases |keys|
  {
    if keys == [] then buckets else RecordedAll(c, Recorded(c, buckets, keys[0], now), keys[1..], now)
  }

  function Removed(buckets: Buckets, keys: seq<string>): Buckets {
    map key | key in buckets && key !in keys :: buckets[key]
  }

  class Throttle {
    const config: Config
    var buckets: Buckets

    constructor (maxFailures: int, window: int, maxEntries: int)
      ensures config == NewConfig(maxFailures, window, maxEntries) && buckets == map[]
    {
      config, buckets := NewConfig(maxFailures, window, maxEntries), map[];
    }

    method Prune(now: int)
      modifies this
      ensures forall key :: key in buckets <==> key in old(buckets) && now < old(buckets)[key].startedAt + config.window
      ensures forall key | key in buckets :: buckets[key] == old(buckets)[key]
      ensures buckets == Pruned(old(buckets), config.window, now)
    {
      var todo := buckets.Keys;
      while todo != {}
        invariant todo <= buckets.Keys <= old(buckets).Keys
        invariant forall key | key in buckets :: buckets[key] == old(buckets)[key]
        invariant forall key | key in old(buckets) && key !in todo :: key in buckets <==> !Expired(old(buckets)[key], config.window, now)
      {
        var key :| key in todo;
        todo := todo - {key};
        if now >= buckets[key].startedAt + config.window {
          buckets := buckets - {key};
        }
      }
    }

    /** Expired buckets go first; then every key of the attempt needs a bucket that is not full or room for a new one. */
    method Allow(ip: string, username: string, now: int) returns (ok: bool)
      modifies this
      ensures ok <==> forall key | key in Keys(ip, username) ::
                if key in old(buckets) && now < old(buckets)[key].startedAt + config.window
                then old(buckets)[key].count < config.maxFailures else |buckets| < config.maxEntries
      ensures buckets == Pruned(old(buckets), config.window, now)
      ensures ok == Admits(config, buckets, Keys(ip, username))
    {
      Prune(now);
      var keys := Keys(ip, username);
      for i := 0 to |keys|
        invariant buckets == Pruned(old(buckets), config.window, now)
        invariant Admits(config, buckets, keys[..i])
      {
        if keys[i] !in buckets {
          if |buckets| >= config.maxEntries {
            return false;
          }
          continue;
        }
        if buckets[keys[i]].count >= config.maxFailures {
          return false;
        }
      }
      assert keys[..|keys|] == keys;
      return true;
    }

    method RecordFailure(ip: string, username: string, now: int)
      modifies this
      ensures buckets == RecordedAll(config, Pruned(old(buckets), config.window, now), Keys(ip, username), now)
    {
      Prune(now);
      var keys := Keys(ip, username);
      for i := 0 to |keys|
        invariant RecordedAll(config, buckets, keys[i..], now)
                  == RecordedAll(config, Pruned(old(buckets), config.window, now), keys, now)
      {
        assert keys[i..][1..] == keys[i + 1..];
        var bucket := Bucket(0, now);
        if keys[i] !in buckets {
          if |buckets| >= config.maxEntries {
            continue;
          }
        } else {
          bucket := buckets[keys[i]];
        }
        buckets := buckets[keys[i] := bucket.(count := bucket.count + 1)];
      }
    }

    method RecordSuccess(ip: string, username: string)
      modifies this
      ensures forall key :: key in buckets <==> key in old(buckets) && key !in Keys(ip, username)
      ensures forall key | key in buckets :: buckets[key] == old(buckets)[key]
      ensures buckets == Removed(old(buckets), Keys(ip, username))
    {
      var keys := Keys(ip, username);
      for i := 0 to |keys|
        invariant buckets == Removed(old(buckets), keys[..i])
      {
        assert keys[..i + 1] == keys[..i] + [keys[i]];
        buckets := buckets - {keys[i]};
      }
      assert keys[..|keys|] == keys;
    }
  }

  // ---------- the table stays bounded ----------

  lemma PrunedIsSmaller(buckets: Buckets, window: int, now: int)
    ensures |Pruned(buckets, window, now)| <= |buckets|
  {
    SubsetSize(Pruned(buckets, window, now).Keys, buckets.Keys);
  }

  lemma SubsetSize<T>(a: set<T>, b: set<T>)
    requires a <= b
    ensures |a| <= |b|
  {
    assert |b| == |a| + |b - a| by {
      assert b == a + (b - a);
    }
  }

  lemma {:induction false} RecordedStaysBounded(c: Config, buckets: Buckets, keys: seq<string>, now: int)
    requires |buckets| <= c.maxEntries
    ensures |RecordedAll(c, buckets, keys, now)| <= c.maxEntries
    decreases |keys|
  {
    if keys != [] {
      var next := Recorded(c, buckets, keys[0], now);
      assert |next| <= c.maxEntries by {
        if keys[0] in buckets {
          assert next.Keys == buckets.Keys;
        } else if |buckets| < c.maxEntries {
          assert next.Keys == buckets.Keys + {keys[0]};
        }
      }
      RecordedStaysBounded(c, next, keys[1..], now);
    }
  }

  // ---------- what recording one failure does to a key ----------

  /** The table, pruned, takes the failure of a key: its bucket is there, or there is room once the address is recorded. */
  predicate HasRoom(c: Config, pruned: Buckets, ip: string, key: string) {
    key in pruned || |pruned| + (if key == IpKey(ip) || IpKey(ip) in pruned then 1 else 2) <= c.maxEntries
  }

  lemma KeysDiffer(ip: string, username: string)
    ensures "user:" + username != IpKey(ip)
  {
    assert ("user:" + username)[0] == 'u' && IpKey(ip)[0] == 'i';
  }

  lemma {:induction false} OtherKeyUntouched(c: Config, buckets: Buckets, keys: seq<string>, now: int, key: string)
    requires key !in keys
    ensures key in RecordedAll(c, buckets, keys, now) <==> key in buckets
    ensures key in buckets ==> RecordedAll(c, buckets, keys, now)[key] == buckets[key]
    decreases |keys|
  {
    if keys != [] {
      OtherKeyUntouched(c, Recorded(c, buckets, keys[0], now), keys[1..], now, key);
    }
  }

  lemma RecordedSize(c: Config, buckets: Buckets, key: string, now: int)
    ensures |Recorded(c, buckets, key, now)| == |buckets| + (if key !in buckets && |buckets| < c.maxEntries then 1 else 0)
  {
    if key in buckets {
      assert Recorded(c, buckets, key, now).Keys == buckets.Keys;
    } else if |buckets| < c.maxEntries {
      assert Recorded(c, buckets, key, now).Keys == buckets.Keys + {key};
    }
  }

  /** A failure reaches the bucket of one of its keys exactly if there is room for it. */
  lemma FailureReachesBucketIff(c: Config, pruned: Buckets, ip: string, username: string, now: int, key: string)
    requires key in Keys(ip, username)
    ensures var next := RecordedAll(c, pruned, Keys(ip, username), now);
      && (key in next <==> HasRoom(c, pruned, ip, key))
      && (key in next ==> next[key] == if key in pruned then Bucket(pruned[key].count + 1, pruned[key].startedAt) else Bucket(1, now))
  {
    var keys, first := Keys(ip, username), Recorded(c, pruned, IpKey(ip), now);
    KeysDiffer(ip, username);
    RecordedSize(c, pruned, IpKey(ip), now);
    assert keys[0] == IpKey(ip);
    if username == "" {
      assert keys[1..] == [];
    } else {
      assert keys[1..] == ["user:" + username] && keys[1..][1..] == [];
      OtherKeyUntouched(c, first, keys[1..], now, IpKey(ip));
    }
  }
}
