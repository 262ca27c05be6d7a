/** What the Redis limiter does when several requests carry the same nanosecond stamp
    (middlewares/redis_ratelimit.go:32-49).  They are one member of the sorted set, so it counts
    stamps and not requests.  How many requests share a key and a stamp decides two things exactly:
    whether the limiter is still at least as strict as the in-memory one, and how far a window can
    exceed the limit. */
module RedisSharedStamps {
  import opened RateWindow
  import opened RedisLimiter
  import M = MemoryLimiter

  /** A run of requests for one window, of stamps that never go back, at most `share` of them for each key and stamp. */
  predicate Shared(ops: seq<M.Op>, window: int, share: int) {
    M.Uniform(ops, window) && (ops != [] ==> 0 <= ops[0].now) && Sparse(ops, map[], share)
  }

  lemma {:induction false} UniformNarrows(ops: seq<M.Op>, clock: int, window: int, last: map<string, int>)
    requires M.Uniform(ops, window) && (ops != [] ==> clock <= ops[0].now)
    requires forall key :: key in last ==> last[key] == window
    ensures Narrowing(ops, clock, last)
    decreases |ops|
  {
    if ops != [] {
      assert ops[0] in ops;
      UniformNarrows(ops[1..], ops[0].now, window, M.Narrow(last, ops[0]));
    }
  }

  lemma {:induction false} UniformGrows(ops: seq<M.Op>, clock: int, window: int, last: map<string, int>)
    requires M.Uniform(ops, window) && (ops != [] ==> clock <= ops[0].now)
    requires forall key :: key in last ==> last[key] == window
    ensures Growing(ops, clock, last, MINUTE)
    decreases |ops|
  {
    if ops != [] {
      assert ops[0] in ops;
      UniformGrows(ops[1..], ops[0].now, window, M.Narrow(last, ops[0]));
    }
  }

  // ---------- when the Redis limiter admits what the other refuses ----------

  /** With a limit of two, whatever number of attempts there is at one stamp. */
  lemma OneStampAllows(all: Attempts, op: M.Op)
    requires op.Request? && op.limit == 2 && forall x :: x in SeenOf(all, op.key) ==> x == 0
    ensures AttemptAllows(all, op)
    ensures op.now == 0 ==> forall x :: x in SeenOf(Noted(all, op), op.key) ==> x == 0
  {
    SizeWithin(Within(AttemptsOf(all, op.key), op.now, op.window), 0, 1);
  }

  /** Integers from `low` on and below `high`. */
  lemma {:induction false} SizeWithin(s: set<int>, low: int, high: int)
    requires low <= high && forall x :: x in s ==> low <= x < high
    ensures |s| <= high - low
    decreases high - low
  {
    if low == high {
      assert forall x :: x !in s;
      assert s == {};
    } else {
      SizeWithin(s - {high - 1}, low, high - 1);
    }
  }

  lemma SharedCounts(ops: seq<M.Op>, window: int, share: int)
    requires Shared(ops, window, share)
    ensures Decisions(map[], ops) == AttemptDecisions(map[], ops)
  {
    UniformNarrows(ops, 0, window, map[]);
    RefinesAttempts(ops, 0);
  }

  lemma RedisCountsStamps(key: string, window: int, t: int)
    requires 0 <= t < window
    ensures var op, late := M.Request(key, 2, window, 0), M.Request(key, 2, window, t);
            AttemptDecisions(map[], [op, op, late]) == [true, true, true]
  {
    var op, late := M.Request(key, 2, window, 0), M.Request(key, 2, window, t);
    assert [op, op, late][1..] == [op, late] && [op, late][1..] == [late];
    var a1 := Noted(map[], op);
    var a2 := Noted(a1, op);
    OneStampAllows(map[], op);
    OneStampAllows(a1, op);
    OneStampAllows(a2, late);
    assert AttemptDecisions(a2, [late]) == [true] + AttemptDecisions(Noted(a2, late), []);
    assert AttemptDecisions(a1, [op, late]) == [true] + AttemptDecisions(a2, [late]);
    assert AttemptDecisions(map[], [op, op, late]) == [true] + AttemptDecisions(a1, [op, late]);
  }

  lemma TwoZeros(now: int, window: int)
    requires now < window
    ensures [] + [0] == [0] && [0] + [0] == [0, 0] && Recent([0], now, window) == [0]
            && Recent([0, 0], now, window) == [0, 0]
  {
    assert [0][..0] == [] && [0, 0][..1] == [0];
    assert Recent([0], now, window) == Recent([], now, window) + [0];
    assert Recent([0, 0], now, window) == Recent([0], now, window) + [0];
  }

  lemma MemoryCountsRequests(key: string, window: int, t: int)
    requires 0 <= t < window
    ensures var op, late := M.Request(key, 2, window, 0), M.Request(key, 2, window, t);
            M.Decisions(map[], [op, op, late]) == [true, true, false]
  {
    var op, late := M.Request(key, 2, window, 0), M.Request(key, 2, window, t);
    assert [op, op, late][1..] == [op, late] && [op, late][1..] == [late];
    var m1 := M.After(map[], op);
    var m2 := M.After(m1, op);
    TwoZeros(0, window);
    TwoZeros(t, window);
    assert m1[key] == [0] && m2[key] == [0, 0];
    assert M.Decisions(m2, [late]) == [false] + M.Decisions(M.After(m2, late), []);
    assert M.Decisions(m1, [op, late]) == [true] + M.Decisions(m2, [late]);
    assert M.Decisions(map[], [op, op, late]) == [true] + M.Decisions(m1, [op, late]);
  }

  lemma ThreeSparse(key: string, window: int, t: int, share: int)
    requires if t == 0 then 3 <= share else 2 <= share
    ensures var op, late := M.Request(key, 2, window, 0), M.Request(key, 2, window, t);
            Sparse([op, op, late], map[], share)
  {
    var op, late := M.Request(key, 2, window, 0), M.Request(key, 2, window, t);
    assert [op, op, late][1..] == [op, late] && [op, late][1..] == [late] && [late][1..] == [];
    var a1 := Noted(map[], op);
    var a2 := Noted(a1, op);
    assert SeenOf(a2, key) == multiset{0, 0};
    assert Sparse([late], a2, share);
    assert Sparse([op, late], a1, share);
  }

  /** Whenever more requests may share a stamp than the window stands, two requests with one stamp and
      a third inside the window: Redis admits all three, the in-memory limiter two. */
  lemma SharedStampAdmitsMore(key: string, window: int, share: int) returns (ops: seq<M.Op>)
    requires !Tame(window, share)
    ensures Shared(ops, window, share)
    ensures Decisions(map[], ops) == [true, true, true] && M.Decisions(map[], ops) == [true, true, false]
  {
    var t := if window == 1 then 0 else 1;
    var op, late := M.Request(key, 2, window, 0), M.Request(key, 2, window, t);
    ops := [op, op, late];
    ThreeSparse(key, window, t, share);
    SharedCounts(ops, window, share);
    RedisCountsStamps(key, window, t);
    MemoryCountsRequests(key, window, t);
  }

  ghost predicate Dominated(ops: seq<M.Op>, window: int, share: int) {
    Shared(ops, window, share) ==> Implies(Decisions(map[], ops), M.Decisions(map[], ops))
  }

  /** The Redis limiter is at least as strict as the in-memory one in every run exactly when no two
      requests share a key and a stamp; a window of one stamp stands two, an empty one any number. */
  lemma DominatedIff(window: int, share: int)
    ensures (forall ops :: Dominated(ops, window, share)) <==> Tame(window, share)
  {
    if Tame(window, share) {
      forall ops ensures Dominated(ops, window, share) {
        if Shared(ops, window, share) {
          UniformGrows(ops, 0, window, map[]);
          RedisDominated(ops, 0, share);
        }
      }
    } else {
      var ops := SharedStampAdmitsMore("", window, share);
      assert Decisions(map[], ops)[2] && !M.Decisions(map[], ops)[2];
      assert !Dominated(ops, window, share);
    }
  }

  // ---------- how many requests a window can let through ----------

  /** The stamps of the requests for `key` that were answered yes. */
  function Granted(ops: seq<M.Op>, answers: seq<bool>, key: string): seq<int> {
    if ops == [] || answers == [] then []
    else if ops[0].Sweep? then Granted(ops[1..], answers, key)
    else (if answers[0] && ops[0].key == key then [ops[0].now] else []) + Granted(ops[1..], answers[1..], key)
  }

  /** All but the last stamp of a full window shared by `share` requests, and one request more. */
  function SharedCap(limit: int, share: nat): nat {
    if limit < 1 then 0 else share * (limit - 1) + 1
  }

  ghost predicate StampsBounded(log: seq<int>, cfg: RateConfig, share: nat) {
    forall from :: CountIn(log, from, cfg.window) <= SharedCap(cfg.limit, share)
  }

  /** Granting one more request keeps the bound: whatever else the window holds was attempted under
      fewer than `limit` stamps. */
  lemma GrantKeepsBound(all: Attempts, log: seq<int>, clock: int, share: nat, op: M.Op)
    requires op.Request? && Covers(all, log, op.key, clock, share) && clock <= op.now && AttemptAllows(all, op)
    requires StampsBounded(log, RateConfig(op.limit, op.window), share)
    ensures StampsBounded(log + [op.now], RateConfig(op.limit, op.window), share)
  {
    var n := |Within(AttemptsOf(all, op.key), op.now, op.window)|;
    forall x ensures multiset(log)[x] <= share {
      assert multiset(log)[x] <= SeenOf(all, op.key)[x];
    }
    RecentWithin(log, SeenOf(all, op.key), op.now, op.window, share);
    Product(share, n, op.limit - 1);
    forall from
      ensures CountIn(log + [op.now], from, op.window) <= SharedCap(op.limit, share)
    {
      CountSnoc(log, op.now, from, op.window);
      if from <= op.now < from + op.window {
        CountWithinRecent(log, from, op.window, op.now, op.window);
      }
    }
  }

  lemma Product(a: nat, n: nat, m: nat)
    requires n <= m
    ensures a * n <= a * m
  {
  }

  lemma GrantStep(all: Attempts, log: seq<int>, clock: int, share: nat, op: M.Op, key: string, cfg: RateConfig,
                  gain: seq<int>)
    requires Covers(all, log, key, clock, share) && StampsBounded(log, cfg, share) && clock <= op.now
    requires op.Request? ==> SeenOf(all, op.key)[op.now] < share
    requires op.Request? && op.key == key ==> cfg == RateConfig(op.limit, op.window)
    requires gain == if op.Request? && op.key == key && AttemptAllows(all, op) then [op.now] else []
    ensures Covers(Noted(all, op), log + gain, key, op.now, share) && StampsBounded(log + gain, cfg, share)
  {
    assert log + [] == log;
    if op.Request? && op.key == key {
      AdmitCovered(all, log, clock, share, op);
      if AttemptAllows(all, op) {
        GrantKeepsBound(all, log, clock, share, op);
      }
    } else if op.Request? {
      NotedAttempts(all, op, key);
    }
  }

  lemma {:induction false} GrantsBounded(all: Attempts, log: seq<int>, clock: int, last: map<string, int>,
                                         ops: seq<M.Op>, share: nat,
                                         key: string, cfg: RateConfig)
    requires Narrowing(ops, clock, last) && Sparse(ops, all, share) && M.Configured(ops, key, cfg)
    requires Covers(all, log, key, clock, share) && StampsBounded(log, cfg, share)
    ensures StampsBounded(log + Granted(ops, AttemptDecisions(all, ops), key), cfg, share)
    decreases |ops|
  {
    if ops == [] {
      assert log + [] == log;
    } else {
      var op, rest := ops[0], ops[1..];
      assert op in ops;
      var all' := Noted(all, op);
      var gain := if op.Request? && op.key == key && AttemptAllows(all, op) then [op.now] else [];
      GrantStep(all, log, clock, share, op, key, cfg, gain);
      GrantsBounded(all', log + gain, op.now, M.Narrow(last, op), rest, share, key, cfg);
      GrantedAppend(all, ops, key, gain, log);
    }
  }

  lemma GrantedAppend(all: Attempts, ops: seq<M.Op>, key: string, gain: seq<int>, log: seq<int>)
    requires ops != []
    requires gain == if ops[0].Request? && ops[0].key == key && AttemptAllows(all, ops[0]) then [ops[0].now] else []
    ensures log + Granted(ops, AttemptDecisions(all, ops), key)
            == (log + gain) + Granted(ops[1..], AttemptDecisions(Noted(all, ops[0]), ops[1..]), key)
  {
    GrantedStep(all, ops, key, gain);
    M.AppendAssoc(log, gain, Granted(ops[1..], AttemptDecisions(Noted(all, ops[0]), ops[1..]), key));
  }

  lemma GrantedStep(all: Attempts, ops: seq<M.Op>, key: string, gain: seq<int>)
    requires ops != []
    requires gain == if ops[0].Request? && ops[0].key == key && AttemptAllows(all, ops[0]) then [ops[0].now] else []
    ensures Granted(ops, AttemptDecisions(all, ops), key)
            == gain + Granted(ops[1..], AttemptDecisions(Noted(all, ops[0]), ops[1..]), key)
  {
    var rest := AttemptDecisions(Noted(all, ops[0]), ops[1..]);
    if ops[0].Request? {
      assert AttemptDecisions(all, ops) == [AttemptAllows(all, ops[0])] + rest;
      assert AttemptDecisions(all, ops)[1..] == rest;
    } else {
      assert AttemptDecisions(all, ops) == [] + rest == rest;
      GrantedNothing(ops[1..], key);
    }
  }

  lemma GrantedNothing(ops: seq<M.Op>, key: string)
    ensures Granted(ops, [], key) == []
  {
  }

  /** With at most `share` requests for each key and stamp, any window holds at most
      share * (limit - 1) + 1 admissions. */
  lemma SharedStampsBounded(ops: seq<M.Op>, clock: nat, share: nat, key: string, cfg: RateConfig, from: int)
    requires Narrowing(ops, clock, map[]) && Sparse(ops, map[], share) && M.Configured(ops, key, cfg)
    ensures CountIn(Granted(ops, Decisions(map[], ops), key), from, cfg.window) <= SharedCap(cfg.limit, share)
  {
    RefinesAttempts(ops, clock);
    assert StampsBounded([], cfg, share) by { assert forall f :: CountIn([], f, cfg.window) == 0; }
    GrantsBounded(map[], [], clock, map[], ops, share, key, cfg);
    assert [] + Granted(ops, Decisions(map[], ops), key) == Granted(ops, Decisions(map[], ops), key);
  }

  // ---------- the bound is reached ----------

  /** Every answer is yes. */
  predicate AllYes(answers: seq<bool>) {
    forall i :: 0 <= i < |answers| ==> answers[i]
  }

  /** Requests for one key with stamps from `low` on and below the limit. */
  predicate Climbing(ops: seq<M.Op>, key: string, cfg: RateConfig, low: int) {
    forall i :: 0 <= i < |ops| ==>
      ops[i].Request? && ops[i].key == key && ops[i].limit == cfg.limit && ops[i].window == cfg.window
        && low <= ops[i].now < cfg.limit
  }

  /** How many requests are still to come when `left` are left for this stamp. */
  function ToCome(cfg: RateConfig, share: nat, stamp: nat, left: nat): nat
    requires stamp < cfg.limit
  {
    if stamp == cfg.limit - 1 then 1 else left + share * (cfg.limit - 2 - stamp) + 1
  }

  /** Attempts have been made up to `stamp`, where all but `left` places are used. */
  ghost predicate ClimbedTo(all: Attempts, key: string, share: nat, stamp: nat, left: nat) {
    && left <= share && SeenOf(all, key)[stamp] == share - left
    && forall x :: x in SeenOf(all, key) ==> 0 <= x <= stamp
  }

  lemma ClimbAllows(all: Attempts, key: string, cfg: RateConfig, share: nat, stamp: nat, left: nat)
    requires ClimbedTo(all, key, share, stamp, left) && left > 0
             && (stamp < cfg.limit - 1 || (stamp == cfg.limit - 1 && left == share))
    ensures var op := M.Request(key, cfg.limit, cfg.window, stamp);
            AttemptAllows(all, op) && ClimbedTo(Noted(all, op), key, share, stamp, left - 1)
  {
    var high := if left == share then stamp else stamp + 1;
    SizeWithin(Within(AttemptsOf(all, key), stamp, cfg.window), 0, high);
  }

  lemma ConsRun(all: Attempts, op: M.Op, rest: seq<M.Op>, share: nat, window: int)
    requires op.Request? && op.window == window && AttemptAllows(all, op) && SeenOf(all, op.key)[op.now] < share
    requires M.Uniform(rest, window) && Sparse(rest, Noted(all, op), share)
    requires forall i :: 0 <= i < |rest| ==> op.now <= rest[i].now
    requires AllYes(AttemptDecisions(Noted(all, op), rest)) && |AttemptDecisions(Noted(all, op), rest)| == |rest|
    ensures M.Uniform([op] + rest, window) && Sparse([op] + rest, all, share)
    ensures AllYes(AttemptDecisions(all, [op] + rest)) && |AttemptDecisions(all, [op] + rest)| == |rest| + 1
  {
    assert ([op] + rest)[1..] == rest;
  }

  /** `share` requests at each stamp below the last, one at the last: all are admitted. */
  lemma {:induction false} Climb(all: Attempts, key: string, cfg: RateConfig, share: nat, stamp: nat, left: nat)
    returns (ops: seq<M.Op>)
    requires 1 <= share && stamp < cfg.limit && ClimbedTo(all, key, share, stamp, left)
             && (stamp == cfg.limit - 1 ==> left == share)
    ensures Climbing(ops, key, cfg, stamp) && M.Uniform(ops, cfg.window) && Sparse(ops, all, share)
    ensures AllYes(AttemptDecisions(all, ops)) && |AttemptDecisions(all, ops)| == |ops|
            == ToCome(cfg, share, stamp, left)
    decreases cfg.limit - stamp, left
  {
    if left == 0 {
      assert ClimbedTo(all, key, share, stamp + 1, share);
      ops := Climb(all, key, cfg, share, stamp + 1, share);
      StampDone(cfg, share, stamp);
    } else {
      var op := M.Request(key, cfg.limit, cfg.window, stamp);
      ClimbAllows(all, key, cfg, share, stamp, left);
      var rest := [];
      if stamp < cfg.limit - 1 {
        rest := Climb(Noted(all, op), key, cfg, share, stamp, left - 1);
      }
      ConsRun(all, op, rest, share, cfg.window);
      ops := [op] + rest;
    }
  }

  lemma StampDone(cfg: RateConfig, share: nat, stamp: nat)
    requires stamp < cfg.limit - 1
    ensures ToCome(cfg, share, stamp, 0) == ToCome(cfg, share, stamp + 1, share)
  {
    if stamp + 1 < cfg.limit - 1 {
      assert share * (cfg.limit - 2 - stamp) == share * (cfg.limit - 3 - stamp) + share;
    } else {
      assert cfg.limit - 2 - stamp == 0;
    }
  }

  lemma {:induction false} GrantedAll(ops: seq<M.Op>, answers: seq<bool>, key: string, cfg: RateConfig)
    requires Climbing(ops, key, cfg, 0) && AllYes(answers) && |answers| == |ops|
    ensures |Granted(ops, answers, key)| == |ops|
    ensures forall i :: 0 <= i < |ops| ==> 0 <= Granted(ops, answers, key)[i] < cfg.limit
  {
    if ops != [] {
      GrantedAll(ops[1..], answers[1..], key, cfg);
    }
  }

  lemma {:induction false} CountAll(log: seq<int>, from: int, span: int)
    requires forall i :: 0 <= i < |log| ==> from <= log[i] < from + span
    ensures CountIn(log, from, span) == |log|
  {
    if log != [] {
      CountAll(log[..|log| - 1], from, span);
    }
  }

  /** For every limit, every window at least as long and every share, some run fills that bound. */
  lemma SharedStampsTight(key: string, cfg: RateConfig, share: nat) returns (ops: seq<M.Op>)
    requires 1 <= cfg.limit <= cfg.window && 1 <= share
    ensures Shared(ops, cfg.window, share) && M.Configured(ops, key, cfg)
    ensures CountIn(Granted(ops, Decisions(map[], ops), key), 0, cfg.window) == SharedCap(cfg.limit, share)
  {
    ops := Climb(map[], key, cfg, share, 0, share);
    UniformNarrows(ops, 0, cfg.window, map[]);
    RefinesAttempts(ops, 0);
    GrantedAll(ops, Decisions(map[], ops), key, cfg);
    CountAll(Granted(ops, Decisions(map[], ops), key), 0, cfg.window);
    if cfg.limit > 1 {
      assert share * (cfg.limit - 1) == share * (cfg.limit - 2) + share;
    }
  }
}
