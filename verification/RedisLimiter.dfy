/** The Redis sliding-window limiter (middlewares/redis_ratelimit.go:31-50).

    Each request is a member of a sorted set, scored by its own nanosecond stamp: trim,
    count, add, set the expiry.  Members are unique, so a sorted set is a set of stamps. */
module RedisLimiter {
  import opened Common
  import opened RateWindow
  import M = MemoryLimiter

  datatype ZSet = ZSet(members: set<int>, deadline: Option<int>)
  type Keyspace = map<string, ZSet>

  /** The members of a key as a command issued at `now` sees them: an expired key is gone. */
  function Live(keys: Keyspace, key: string, now: int): set<int> {
    if key in keys && (keys[key].deadline.None? || now < keys[key].deadline.value) then keys[key].members else {}
  }

  // ---------- the server's commands and the pipeline ----------

  class RedisServer {
    var keys: Keyspace

    constructor ()
      ensures keys == map[]
    {
      keys := map[];
    }

    /** Expired keys are dropped before a command touches them. */
    method Touch(key: string, now: int)
      modifies this
      ensures keys == if key in old(keys) && Live(old(keys), key, now) == {} then old(keys) - {key} else old(keys)
    {
      if key in keys && Live(keys, key, now) == {} {
        keys := keys - {key};
      }
    }

    /** ZREMRANGEBYSCORE key low high: both ends included. */
    method ZRemRangeByScore(key: string, low: int, high: int, now: int)
      modifies this
      ensures forall k :: k != key ==> (k in keys <==> k in old(keys)) && (k in keys ==> keys[k] == old(keys)[k])
      ensures Live(keys, key, now) == set x | x in Live(old(keys), key, now) && !(low <= x <= high)
    {
      Touch(key, now);
      if key in keys {
        var members := keys[key].members;
        keys := keys[key := keys[key].(members := set x | x in members && !(low <= x <= high))];
      }
    }

    method ZCard(key: string, now: int) returns (n: nat)
      ensures n == |Live(keys, key, now)|
    {
      n := |Live(keys, key, now)|;
    }

    method ZAdd(key: string, member: int, now: int)
      modifies this
      ensures forall k :: k != key ==> (k in keys <==> k in old(keys)) && (k in keys ==> keys[k] == old(keys)[k])
      ensures key in keys && keys[key].members == Live(old(keys), key, now) + {member}
    {
      Touch(key, now);
      keys := keys[key := if key in keys then keys[key].(members := keys[key].members + {member})
        else ZSet({member}, None)];
    }

    method Expire(key: string, ttl: int, now: int)
      requires key in keys
      modifies this
      ensures keys == old(keys)[key := old(keys)[key].(deadline := Some(now + ttl))]
    {
      keys := keys[key := keys[key].(deadline := Some(now + ttl))];
    }
  }

  class RedisRateLimiter {
    const client: RedisServer

    constructor (client: RedisServer)
      ensures this.client == client
    {
      this.client := client;
    }

    /** allow: the four pipelined commands, executed without interruption. */
    method Allow(key: string, limit: int, window: int, now: int) returns (allowed: bool)
      modifies client
      ensures allowed == Allows(old(client.keys), key, limit, window, now)
      ensures client.keys == AfterAllow(old(client.keys), key, window, now)
    {
      var windowStart := now - window;
      client.ZRemRangeByScore(key, 0, windowStart, now);
      var count := client.ZCard(key, now);
      client.ZAdd(key, now, now);
      client.Expire(key, window + MINUTE, now);
      allowed := count < limit;
    }
  }

  // ---------- the pipeline on values ----------

  function Trimmed(keys: Keyspace, key: string, window: int, now: int): set<int> {
    set x | x in Live(keys, key, now) && !(0 <= x <= now - window)
  }

  predicate Allows(keys: Keyspace, key: string, limit: int, window: int, now: int) {
    |Trimmed(keys, key, window, now)| < limit
  }

  function AfterAllow(keys: Keyspace, key: string, window: int, now: int): Keyspace {
    keys[key := ZSet(Trimmed(keys, key, window, now) + {now}, Some(now + (window + MINUTE)))]
  }

  // ---------- whole runs ----------

  /** What the Redis limiter answers to the requests of a run; sweeps do not concern it. */
  function Decisions(keys: Keyspace, ops: seq<M.Op>): seq<bool>
    decreases |ops|
  {
    if ops == [] then [] else
      match ops[0]
      case Request(key, limit, window, now) =>
        [Allows(keys, key, limit, window, now)] + Decisions(AfterAllow(keys, key, window, now), ops[1..])
      case Sweep(_) => Decisions(keys, ops[1..])
  }

  /** The reference: all attempts of every key, for ever. */
  type Attempts = map<string, multiset<int>>

  function SeenOf(all: Attempts, key: string): multiset<int> {
    if key in all then all[key] else multiset{}
  }

  function Support(seen: multiset<int>): set<int> {
    set x | x in seen
  }

  /** The stamps of all attempts. */
  function AttemptsOf(all: Attempts, key: string): set<int> {
    Support(SeenOf(all, key))
  }

  function Within(stamps: set<int>, now: int, window: int): set<int> {
    set x | x in stamps && now - x < window
  }

  function Noted(all: Attempts, op: M.Op): Attempts {
    if op.Request? then all[op.key := SeenOf(all, op.key) + multiset{op.now}] else all
  }

  predicate AttemptAllows(all: Attempts, op: M.Op)
    requires op.Request?
  {
    |Within(AttemptsOf(all, op.key), op.now, op.window)| < op.limit
  }

  function AttemptDecisions(all: Attempts, ops: seq<M.Op>): seq<bool>
    decreases |ops|
  {
    if ops == [] then [] else
      (if ops[0].Request? then [AttemptAllows(all, ops[0])] else []) + AttemptDecisions(Noted(all, ops[0]), ops[1..])
  }

  lemma NotedAttempts(all: Attempts, op: M.Op, key: string)
    requires op.Request?
    ensures AttemptsOf(Noted(all, op), key) == AttemptsOf(all, key) + if op.key == key then {op.now} else {}
    ensures SeenOf(Noted(all, op), key) == SeenOf(all, key) + if op.key == key then multiset{op.now} else multiset{}
  {
  }

  /** The clock never goes back and the windows asked of one key, of any length, never grow.
      `last` holds the last window of each key. */
  predicate Narrowing(ops: seq<M.Op>, clock: int, last: map<string, int>) {
    ops == [] ||
    (InOrder(ops[0], clock, last) && Narrowing(ops[1..], ops[0].now, M.Narrow(last, ops[0])))
  }

  predicate InOrder(op: M.Op, clock: int, last: map<string, int>) {
    clock <= op.now && (op.Request? && op.key in last ==> op.window <= last[op.key])
  }

  /** From `clock` on and up to the last window of the key, the sorted set and all attempts look the same. */
  ghost predicate Mirrors(keys: Keyspace, all: Attempts, key: string, clock: int, last: map<string, int>) {
    && (forall x :: x in AttemptsOf(all, key) ==> 0 <= x <= clock)
    && (key in keys ==> keys[key].members <= AttemptsOf(all, key))
    && (forall t, w :: clock <= t && (key in last ==> w <= last[key]) ==> SameWithin(keys, all, key, t, w))
  }

  predicate SameWithin(keys: Keyspace, all: Attempts, key: string, t: int, w: int) {
    Within(Live(keys, key, t), t, w) == Within(AttemptsOf(all, key), t, w)
  }

  lemma TrimIsWithin(keys: Keyspace, all: Attempts, clock: int, last: map<string, int>, op: M.Op)
    requires op.Request? && Mirrors(keys, all, op.key, clock, last) && InOrder(op, clock, last)
    ensures Trimmed(keys, op.key, op.window, op.now) == Within(AttemptsOf(all, op.key), op.now, op.window)
  {
    assert SameWithin(keys, all, op.key, op.now, op.window);
    assert Trimmed(keys, op.key, op.window, op.now) == Within(Live(keys, op.key, op.now), op.now, op.window);
  }

  lemma AllowKeepsMirror(keys: Keyspace, all: Attempts, clock: int, last: map<string, int>, op: M.Op, key: string)
    requires op.Request? && Mirrors(keys, all, key, clock, last) && InOrder(op, clock, last) && 0 <= op.now
    ensures Mirrors(AfterAllow(keys, op.key, op.window, op.now), Noted(all, op), key, op.now, M.Narrow(last, op))
  {
    NotedAttempts(all, op, key);
    if op.key == key {
      OwnMirror(keys, all, clock, last, op);
    } else {
      OtherMirror(keys, all, clock, last, op, key);
    }
  }

  lemma OtherMirror(keys: Keyspace, all: Attempts, clock: int, last: map<string, int>, op: M.Op, key: string)
    requires op.Request? && Mirrors(keys, all, key, clock, last) && clock <= op.now && op.key != key
    ensures Mirrors(AfterAllow(keys, op.key, op.window, op.now), Noted(all, op), key, op.now, M.Narrow(last, op))
  {
    var keys', all', last' := AfterAllow(keys, op.key, op.window, op.now), Noted(all, op), M.Narrow(last, op);
    NotedAttempts(all, op, key);
    assert AttemptsOf(all', key) == AttemptsOf(all, key);
    forall t, w | op.now <= t && (key in last' ==> w <= last'[key])
      ensures SameWithin(keys', all', key, t, w)
    {
      OtherKeyMirrored(keys, all, op, key, t, w);
    }
  }

  lemma OtherKeyMirrored(keys: Keyspace, all: Attempts, op: M.Op, key: string, t: int, w: int)
    requires op.Request? && op.key != key && SameWithin(keys, all, key, t, w)
    ensures SameWithin(AfterAllow(keys, op.key, op.window, op.now), Noted(all, op), key, t, w)
  {
  }

  lemma OwnMirror(keys: Keyspace, all: Attempts, clock: int, last: map<string, int>, op: M.Op)
    requires op.Request? && Mirrors(keys, all, op.key, clock, last) && InOrder(op, clock, last) && 0 <= op.now
    ensures Mirrors(AfterAllow(keys, op.key, op.window, op.now), Noted(all, op), op.key, op.now, M.Narrow(last, op))
  {
    NotedAttempts(all, op, op.key);
    TrimIsWithin(keys, all, clock, last, op);
    forall t, w | op.now <= t && w <= op.window
      ensures SameWithin(AfterAllow(keys, op.key, op.window, op.now), Noted(all, op), op.key, t, w)
    {
      OwnKeyMirrored(keys, all, op, t, w);
    }
  }

  lemma OwnKeyMirrored(keys: Keyspace, all: Attempts, op: M.Op, t: int, w: int)
    requires op.Request? && op.now <= t && w <= op.window && forall x :: x in AttemptsOf(all, op.key) ==> x <= op.now
    requires Trimmed(keys, op.key, op.window, op.now) == Within(AttemptsOf(all, op.key), op.now, op.window)
    ensures SameWithin(AfterAllow(keys, op.key, op.window, op.now), Noted(all, op), op.key, t, w)
  {
    NotedAttempts(all, op, op.key);
    WithinAfterAllow(AttemptsOf(all, op.key), op.now, op.window, t, w);
  }

  /** The trimmed and extended set, seen later, while it lives and after. */
  lemma WithinAfterAllow(attempts: set<int>, now: int, window: int, t: int, w: int)
    requires now <= t && w <= window && forall x :: x in attempts ==> x <= now
    ensures Within(Within(attempts, now, window) + {now}, t, w) == Within(attempts + {now}, t, w)
    ensures now + (window + MINUTE) <= t ==> Within(attempts + {now}, t, w) == {}
  {
  }

  ghost predicate MirrorsAll(keys: Keyspace, all: Attempts, clock: int, last: map<string, int>) {
    forall key :: Mirrors(keys, all, key, clock, last)
  }

  /** Trimming and the expiry of idle keys never change a decision. */
  lemma {:induction false} CountsAttempts(keys: Keyspace, all: Attempts, clock: int, last: map<string, int>,
                                          ops: seq<M.Op>)
    requires MirrorsAll(keys, all, clock, last) && Narrowing(ops, clock, last) && 0 <= clock
    ensures Decisions(keys, ops) == AttemptDecisions(all, ops)
    decreases |ops|
  {
    if ops != [] {
      var op := ops[0];
      var keys' := if op.Request? then AfterAllow(keys, op.key, op.window, op.now) else keys;
      forall key
        ensures Mirrors(keys', Noted(all, op), key, op.now, M.Narrow(last, op))
      {
        assert Mirrors(keys, all, key, clock, last);
        if op.Request? {
          AllowKeepsMirror(keys, all, clock, last, op, key);
        }
      }
      if op.Request? {
        assert Mirrors(keys, all, op.key, clock, last);
        TrimIsWithin(keys, all, clock, last, op);
      }
      CountsAttempts(keys', Noted(all, op), op.now, M.Narrow(last, op), ops[1..]);
    }
  }

  /** The limiter's answers on every run from an empty server: only the attempts in the window matter. */
  lemma RefinesAttempts(ops: seq<M.Op>, clock: int)
    requires Narrowing(ops, clock, map[]) && 0 <= clock
    ensures Decisions(map[], ops) == AttemptDecisions(map[], ops)
  {
    CountsAttempts(map[], map[], clock, map[], ops);
  }

  // ---------- requests that share a stamp ----------

  /** Every request is at most the `share`-th with its key and stamp. */
  predicate Sparse(ops: seq<M.Op>, all: Attempts, share: int)
    decreases |ops|
  {
    ops == [] ||
    ((ops[0].Request? ==> SeenOf(all, ops[0].key)[ops[0].now] < share) && Sparse(ops[1..], Noted(all, ops[0]), share))
  }

  /** What is logged was attempted; no stamp was attempted more than `share` times. */
  ghost predicate Covers(all: Attempts, log: seq<int>, key: string, clock: int, share: int) {
    && multiset(log) <= SeenOf(all, key)
    && forall x :: x in SeenOf(all, key) ==> SeenOf(all, key)[x] <= share && x <= clock
  }

  lemma {:induction false} RecentCount(log: seq<int>, now: int, window: int, x: int)
    ensures multiset(Recent(log, now, window))[x] == if now - x < window then multiset(log)[x] else 0
  {
    if log != [] {
      var init, last := log[..|log| - 1], log[|log| - 1];
      RecentCount(init, now, window, x);
      assert log == init + [last];
    }
  }

  lemma Member<T>(r: multiset<T>) returns (x: T)
    requires |r| > 0
    ensures x in r
  {
    x :| x in r;
  }

  lemma {:induction false} SizeBound(r: multiset<int>, s: set<int>, share: nat)
    requires forall x :: x in r ==> x in s && r[x] <= share
    ensures |r| <= share * |s|
    decreases |s|
  {
    if |r| > 0 {
      var x := Member(r);
      var rest := r[x := 0];
      SizeBound(rest, s - {x}, share);
      assert r == rest[x := r[x]];
      assert share * |s| == share * (|s| - 1) + share;
    }
  }

  /** Recent stamps of the log, none of them logged more than `share` times, against the attempts in the window. */
  lemma RecentWithin(log: seq<int>, seen: multiset<int>, now: int, window: int, share: nat)
    requires multiset(log) <= seen && forall x :: now - x < window ==> multiset(log)[x] <= share
    ensures |Recent(log, now, window)| <= share * |Within(Support(seen), now, window)|
  {
    var r, s := multiset(Recent(log, now, window)), Within(Support(seen), now, window);
    forall x | x in r
      ensures x in s && r[x] <= share
    {
      RecentCount(log, now, window, x);
    }
    SizeBound(r, s, share);
  }

  // ---------- the Redis limiter is at least as strict as the in-memory one ----------

  predicate Implies(a: seq<bool>, b: seq<bool>) {
    |a| == |b| && forall i :: 0 <= i < |a| && a[i] ==> b[i]
  }

  /** So many requests may share a stamp before a window of this length tells the limiters apart. */
  predicate Tame(window: int, share: int) {
    share <= 1 || window <= 0 || (window == 1 && share <= 2)
  }

  ghost predicate CoversAll(all: Attempts, m: M.Table, clock: int, share: int) {
    forall key :: Covers(all, M.Stamps(m, key), key, clock, share)
  }

  lemma PruneCovered(all: Attempts, log: seq<int>, key: string, clock: int, share: int, now: int, window: int)
    requires Covers(all, log, key, clock, share)
    ensures Covers(all, Recent(log, now, window), key, clock, share)
  {
    forall x ensures multiset(Recent(log, now, window))[x] <= SeenOf(all, key)[x] {
      RecentCount(log, now, window, x);
    }
  }

  lemma StepCovered(all: Attempts, m: M.Table, clock: int, share: int, op: M.Op, key: string)
    requires Covers(all, M.Stamps(m, key), key, clock, share) && clock <= op.now
    requires op.Request? ==> SeenOf(all, op.key)[op.now] < share
    ensures Covers(Noted(all, op), M.Stamps(M.After(m, op), key), key, op.now, share)
  {
    var log := M.Stamps(m, key);
    if op.Sweep? {
      PruneCovered(all, log, key, clock, share, op.now, HORIZON);
      assert M.Stamps(M.After(m, op), key) == Recent(log, op.now, HORIZON);
    } else if op.key == key {
      RequestCovered(all, m, clock, share, op);
    } else {
      NotedAttempts(all, op, key);
      assert M.Stamps(M.After(m, op), key) == log;
    }
  }

  lemma RequestCovered(all: Attempts, m: M.Table, clock: int, share: int, op: M.Op)
    requires op.Request? && Covers(all, M.Stamps(m, op.key), op.key, clock, share) && clock <= op.now
    requires SeenOf(all, op.key)[op.now] < share
    ensures Covers(Noted(all, op), M.Stamps(M.After(m, op), op.key), op.key, op.now, share)
  {
    PruneCovered(all, M.Stamps(m, op.key), op.key, clock, share, op.now, op.window);
    AdmitCovered(all, Recent(M.Stamps(m, op.key), op.now, op.window), clock, share, op);
  }

  lemma AdmitCovered(all: Attempts, kept: seq<int>, clock: int, share: int, op: M.Op)
    requires op.Request? && Covers(all, kept, op.key, clock, share) && clock <= op.now
             && SeenOf(all, op.key)[op.now] < share
    ensures Covers(Noted(all, op), kept, op.key, op.now, share)
    ensures Covers(Noted(all, op), kept + [op.now], op.key, op.now, share)
  {
    NotedAttempts(all, op, op.key);
    assert multiset(kept + [op.now]) == multiset(kept) + multiset{op.now};
  }

  /** One request: what the attempts allow, the store allows. */
  lemma AttemptsStricter(all: Attempts, m: M.Table, clock: int, share: int, op: M.Op)
    requires op.Request? && Covers(all, M.Stamps(m, op.key), op.key, clock, share) && clock <= op.now
    requires SeenOf(all, op.key)[op.now] < share && Tame(op.window, share)
    ensures AttemptAllows(all, op) ==> M.Allows(m, op.key, op.limit, op.window, op.now)
  {
    var log, seen := M.Stamps(m, op.key), SeenOf(all, op.key);
    forall x | op.now - x < op.window
      ensures multiset(log)[x] <= 1
    {
      assert multiset(log)[x] <= seen[x];
    }
    RecentWithin(log, seen, op.now, op.window, 1);
  }

  predicate Forward(ops: seq<M.Op>, clock: int) {
    ops == [] || (clock <= ops[0].now && Forward(ops[1..], ops[0].now))
  }

  /** The limiter that keeps every attempt is at least as strict as the store, whatever the windows do. */
  lemma {:induction false} AttemptsDominate(all: Attempts, m: M.Table, clock: int, ops: seq<M.Op>, share: int)
    requires CoversAll(all, m, clock, share) && Forward(ops, clock) && Sparse(ops, all, share)
    requires forall op :: op in ops && op.Request? ==> Tame(op.window, share)
    ensures Implies(AttemptDecisions(all, ops), M.Decisions(m, ops))
    decreases |ops|
  {
    if ops != [] {
      var op := ops[0];
      assert op in ops;
      StepCoversAll(all, m, clock, share, op);
      if op.Request? {
        assert Covers(all, M.Stamps(m, op.key), op.key, clock, share);
        AttemptsStricter(all, m, clock, share, op);
      }
      AttemptsDominate(Noted(all, op), M.After(m, op), op.now, ops[1..], share);
    }
  }

  lemma StepCoversAll(all: Attempts, m: M.Table, clock: int, share: int, op: M.Op)
    requires CoversAll(all, m, clock, share) && clock <= op.now
    requires op.Request? ==> SeenOf(all, op.key)[op.now] < share
    ensures CoversAll(Noted(all, op), M.After(m, op), op.now, share)
  {
    forall key
      ensures Covers(Noted(all, op), M.Stamps(M.After(m, op), key), key, op.now, share)
    {
      assert Covers(all, M.Stamps(m, key), key, clock, share);
      StepCovered(all, m, clock, share, op, key);
    }
  }

  // ---------- windows that grow ----------

  /** The clock never goes back, and a window exceeds the last one of its key by at most `growth`. */
  predicate Growing(ops: seq<M.Op>, clock: int, last: map<string, int>, growth: int) {
    ops == [] ||
    (GrowsInOrder(ops[0], clock, last, growth) && Growing(ops[1..], ops[0].now, M.Narrow(last, ops[0]), growth))
  }

  predicate GrowsInOrder(op: M.Op, clock: int, last: map<string, int>, growth: int) {
    clock <= op.now && (op.Request? && op.key in last ==> op.window <= last[op.key] + growth)
  }

  /** A stamp of the store is a member of the sorted set, and the set outlives it by a minute. */
  predicate BackedStamp(keys: Keyspace, key: string, clock: int, last: map<string, int>, x: int) {
    && 0 <= x <= clock && key in keys && key in last && x in keys[key].members
    && keys[key].deadline.Some? && x + last[key] + MINUTE <= keys[key].deadline.value
  }

  ghost predicate Backed(keys: Keyspace, log: seq<int>, key: string, clock: int, last: map<string, int>) {
    forall i :: 0 <= i < |log| ==> BackedStamp(keys, key, clock, last, log[i])
  }

  lemma {:induction false} RecentFrom(log: seq<int>, now: int, window: int, i: nat) returns (j: nat)
    requires i < |Recent(log, now, window)|
    ensures j < |log| && log[j] == Recent(log, now, window)[i] && now - log[j] < window
  {
    var init, last := log[..|log| - 1], log[|log| - 1];
    if i < |Recent(init, now, window)| {
      j := RecentFrom(init, now, window, i);
    } else {
      j := |log| - 1;
    }
  }

  /** What the store still counts, the sorted set still has: an expired set outlived it. */
  lemma RecentBacked(keys: Keyspace, log: seq<int>, clock: int, last: map<string, int>, op: M.Op, i: nat)
    requires op.Request? && Backed(keys, log, op.key, clock, last) && GrowsInOrder(op, clock, last, MINUTE)
    requires i < |Recent(log, op.now, op.window)|
    ensures Recent(log, op.now, op.window)[i] in Trimmed(keys, op.key, op.window, op.now)
    ensures 0 <= Recent(log, op.now, op.window)[i] <= clock
  {
    var j := RecentFrom(log, op.now, op.window, i);
    assert BackedStamp(keys, op.key, clock, last, log[j]);
  }

  lemma RequestBacked(keys: Keyspace, m: M.Table, clock: int, last: map<string, int>, op: M.Op)
    requires op.Request? && Backed(keys, M.Stamps(m, op.key), op.key, clock, last)
    requires GrowsInOrder(op, clock, last, MINUTE) && 0 <= op.now
    ensures Backed(AfterAllow(keys, op.key, op.window, op.now), M.Stamps(M.After(m, op), op.key), op.key, op.now,
            M.Narrow(last, op))
  {
    var keys', log, log' := AfterAllow(keys, op.key, op.window, op.now), M.Stamps(m, op.key),
      M.Stamps(M.After(m, op), op.key);
    forall i | 0 <= i < |log'|
      ensures BackedStamp(keys', op.key, op.now, M.Narrow(last, op), log'[i])
    {
      if i < |Recent(log, op.now, op.window)| {
        RecentBacked(keys, log, clock, last, op, i);
      }
    }
  }

  lemma SweepBacked(keys: Keyspace, m: M.Table, clock: int, last: map<string, int>, now: int, key: string)
    requires Backed(keys, M.Stamps(m, key), key, clock, last) && clock <= now
    ensures Backed(keys, M.Stamps(M.AfterSweep(m, now), key), key, now, last)
  {
    var log, log' := M.Stamps(m, key), M.Stamps(M.AfterSweep(m, now), key);
    assert log' == Recent(log, now, HORIZON);
    forall i | 0 <= i < |log'| ensures BackedStamp(keys, key, now, last, log'[i]) {
      var j := RecentFrom(log, now, HORIZON, i);
      assert BackedStamp(keys, key, clock, last, log[j]);
    }
  }

  lemma OtherBacked(keys: Keyspace, log: seq<int>, clock: int, last: map<string, int>, op: M.Op, key: string)
    requires op.Request? && op.key != key && Backed(keys, log, key, clock, last) && clock <= op.now
    ensures Backed(AfterAllow(keys, op.key, op.window, op.now), log, key, op.now, M.Narrow(last, op))
  {
    forall i | 0 <= i < |log|
      ensures BackedStamp(AfterAllow(keys, op.key, op.window, op.now), key, op.now, M.Narrow(last, op), log[i])
    {
      assert BackedStamp(keys, key, clock, last, log[i]);
    }
  }

  ghost predicate BackedAll(keys: Keyspace, m: M.Table, clock: int, last: map<string, int>) {
    forall key :: Backed(keys, M.Stamps(m, key), key, clock, last)
  }

  function AfterOp(keys: Keyspace, op: M.Op): Keyspace {
    if op.Request? then AfterAllow(keys, op.key, op.window, op.now) else keys
  }

  lemma StepBackedAll(keys: Keyspace, m: M.Table, clock: int, last: map<string, int>, op: M.Op)
    requires BackedAll(keys, m, clock, last) && GrowsInOrder(op, clock, last, MINUTE) && 0 <= op.now
    ensures BackedAll(AfterOp(keys, op), M.After(m, op), op.now, M.Narrow(last, op))
  {
    forall key
      ensures Backed(AfterOp(keys, op), M.Stamps(M.After(m, op), key), key, op.now, M.Narrow(last, op))
    {
      assert Backed(keys, M.Stamps(m, key), key, clock, last);
      if op.Sweep? {
        SweepBacked(keys, m, clock, last, op.now, key);
      } else if op.key == key {
        RequestBacked(keys, m, clock, last, op);
      } else {
        OtherBacked(keys, M.Stamps(m, key), clock, last, op, key);
      }
    }
  }

  /** Within the window no logged stamp is repeated. */
  lemma LoggedOnce(all: Attempts, log: seq<int>, clock: int, share: int, op: M.Op, x: int)
    requires op.Request? && Covers(all, log, op.key, clock, share) && clock <= op.now
    requires SeenOf(all, op.key)[op.now] < share && Tame(op.window, share) && op.now - x < op.window
    ensures multiset(log)[x] <= 1
  {
    assert multiset(log)[x] <= SeenOf(all, op.key)[x];
  }

  /** One request: what the Redis limiter allows, the store allows. */
  lemma RedisStricter(keys: Keyspace, all: Attempts, m: M.Table, clock: int, last: map<string, int>, share: int,
                      op: M.Op)
    requires op.Request? && Covers(all, M.Stamps(m, op.key), op.key, clock, share)
    requires Backed(keys, M.Stamps(m, op.key), op.key, clock, last) && GrowsInOrder(op, clock, last, MINUTE)
    requires SeenOf(all, op.key)[op.now] < share && Tame(op.window, share)
    ensures Allows(keys, op.key, op.limit, op.window, op.now) ==> M.Allows(m, op.key, op.limit, op.window, op.now)
  {
    var log := M.Stamps(m, op.key);
    var recent, members := Recent(log, op.now, op.window), Trimmed(keys, op.key, op.window, op.now);
    forall x | x in multiset(recent)
      ensures x in members && multiset(recent)[x] <= 1
    {
      var i :| 0 <= i < |recent| && recent[i] == x;
      RecentBacked(keys, log, clock, last, op, i);
      RecentCount(log, op.now, op.window, x);
      LoggedOnce(all, log, clock, share, op, x);
    }
    SizeBound(multiset(recent), members, 1);
  }

  lemma RedisStricterAll(keys: Keyspace, all: Attempts, m: M.Table, clock: int, last: map<string, int>, share: int,
                         op: M.Op)
    requires op.Request? && CoversAll(all, m, clock, share) && BackedAll(keys, m, clock, last)
    requires GrowsInOrder(op, clock, last, MINUTE) && SeenOf(all, op.key)[op.now] < share && Tame(op.window, share)
    ensures Allows(keys, op.key, op.limit, op.window, op.now) ==> M.Allows(m, op.key, op.limit, op.window, op.now)
  {
    assert Covers(all, M.Stamps(m, op.key), op.key, clock, share);
    assert Backed(keys, M.Stamps(m, op.key), op.key, clock, last);
    RedisStricter(keys, all, m, clock, last, share, op);
  }

  lemma ImpliesFirst(keys: Keyspace, m: M.Table, op: M.Op, rest: seq<M.Op>)
    requires op.Request? && Allows(keys, op.key, op.limit, op.window, op.now) ==>
               M.Allows(m, op.key, op.limit, op.window, op.now)
    requires Implies(Decisions(AfterOp(keys, op), rest), M.Decisions(M.After(m, op), rest))
    ensures Implies(Decisions(keys, [op] + rest), M.Decisions(m, [op] + rest))
  {
    assert ([op] + rest)[1..] == rest;
  }

  lemma {:induction false} RedisDominates(keys: Keyspace, all: Attempts, m: M.Table, clock: int, last: map<string, int>,
                                          ops: seq<M.Op>, share: int)
    requires BackedAll(keys, m, clock, last) && CoversAll(all, m, clock, share) && 0 <= clock
    requires Growing(ops, clock, last, MINUTE) && Sparse(ops, all, share)
    requires forall op :: op in ops && op.Request? ==> Tame(op.window, share)
    ensures Implies(Decisions(keys, ops), M.Decisions(m, ops))
    decreases |ops|
  {
    if ops != [] {
      var op := ops[0];
      assert op in ops;
      StepBackedAll(keys, m, clock, last, op);
      StepCoversAll(all, m, clock, share, op);
      if op.Request? {
        RedisStricterAll(keys, all, m, clock, last, share, op);
      }
      RedisDominates(AfterOp(keys, op), Noted(all, op), M.After(m, op), op.now, M.Narrow(last, op), ops[1..], share);
      ImpliesFirst(keys, m, op, ops[1..]);
      assert [op] + ops[1..] == ops;
    }
  }

  /** Each request the Redis limiter admits, the in-memory limiter admits too, wherever its sweeps run, when few
      enough requests share a key and a stamp and no window of a key exceeds the one before by over a minute. */
  lemma RedisDominated(ops: seq<M.Op>, clock: int, share: int)
    requires Growing(ops, clock, map[], MINUTE) && 0 <= clock && Sparse(ops, map[], share)
    requires forall op :: op in ops && op.Request? ==> Tame(op.window, share)
    ensures Implies(Decisions(map[], ops), M.Decisions(map[], ops))
  {
    RedisDominates(map[], map[], map[], clock, map[], ops, share);
  }

  // ---------- by how much a window may grow ----------

  lemma ExpiredForgets(key: string, window: int)
    requires MINUTE + 1 < window
    ensures var first, second := M.Request(key, 1, 1, 0), M.Request(key, 1, window, MINUTE + 1);
            Decisions(map[], [first, second]) == [true, true]
  {
    var first, second := M.Request(key, 1, 1, 0), M.Request(key, 1, window, MINUTE + 1);
    assert [first, second][1..] == [second];
    var k1 := AfterAllow(map[], key, 1, 0);
    assert k1[key].deadline == Some(0 + (1 + MINUTE));
    assert Live(k1, key, MINUTE + 1) == {} && Trimmed(map[], key, 1, 0) == {}
      && Trimmed(k1, key, window, MINUTE + 1) == {};
    assert Decisions(k1, [second]) == [true] + Decisions(AfterAllow(k1, key, window, MINUTE + 1), []);
    assert Decisions(map[], [first, second]) == [true] + Decisions(k1, [second]);
  }

  lemma StoreRemembers(key: string, window: int)
    requires MINUTE + 1 < window
    ensures var first, second := M.Request(key, 1, 1, 0), M.Request(key, 1, window, MINUTE + 1);
            M.Decisions(map[], [first, second]) == [true, false]
  {
    var first, second := M.Request(key, 1, 1, 0), M.Request(key, 1, window, MINUTE + 1);
    assert [first, second][1..] == [second];
    var m1 := M.After(map[], first);
    assert [] + [0] == [0];
    assert m1[key] == [0] && Recent([0], MINUTE + 1, window) == [0];
    assert M.Decisions(m1, [second]) == [false] + M.Decisions(M.After(m1, second), []);
    assert M.Decisions(map[], [first, second]) == [true] + M.Decisions(m1, [second]);
  }

  /** A window that grows by more than a minute reaches back behind a key that has expired. */
  lemma GrowthAdmitsMore(key: string, growth: int) returns (ops: seq<M.Op>)
    requires MINUTE < growth
    ensures Growing(ops, 0, map[], growth) && Sparse(ops, map[], 1)
    ensures Decisions(map[], ops) == [true, true] && M.Decisions(map[], ops) == [true, false]
  {
    var first, second := M.Request(key, 1, 1, 0), M.Request(key, 1, 1 + growth, MINUTE + 1);
    ops := [first, second];
    assert ops[1..] == [second] && [second][1..] == [];
    assert Growing([second], 0, map[key := 1], growth);
    assert Sparse([second], Noted(map[], first), 1);
    ExpiredForgets(key, 1 + growth);
    StoreRemembers(key, 1 + growth);
  }

  ghost predicate DominatedAt(ops: seq<M.Op>, growth: int) {
    Growing(ops, 0, map[], growth) && Sparse(ops, map[], 1) ==> Implies(Decisions(map[], ops), M.Decisions(map[], ops))
  }

  lemma {:induction false} GrowsLess(ops: seq<M.Op>, clock: int, last: map<string, int>, less: int, more: int)
    requires Growing(ops, clock, last, less) && less <= more
    ensures Growing(ops, clock, last, more)
    decreases |ops|
  {
    if ops != [] {
      GrowsLess(ops[1..], ops[0].now, M.Narrow(last, ops[0]), less, more);
    }
  }

  /** With different stamps per key, and pipelines that run without interruption, the Redis limiter is at least as
      strict as the in-memory one in every run exactly when windows grow by at most a minute. */
  lemma GrowthIff(growth: int)
    ensures (forall ops :: DominatedAt(ops, growth)) <==> growth <= 60_000_000_000
  {
    if growth <= MINUTE {
      forall ops ensures DominatedAt(ops, growth) {
        if Growing(ops, 0, map[], growth) && Sparse(ops, map[], 1) {
          GrowsLess(ops, 0, map[], growth, MINUTE);
          RedisDominated(ops, 0, 1);
        }
      }
    } else {
      var ops := GrowthAdmitsMore("", growth);
      assert Decisions(map[], ops)[1] && !M.Decisions(map[], ops)[1];
      assert !DominatedAt(ops, growth);
    }
  }
}
