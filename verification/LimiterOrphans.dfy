/** How far orphans take the in-memory limiter past its limit (middlewares/mennanov_ratelimit.go:33-99):
    for every limit, window and number n, a run with n orphans of one key admits limit * (1 + n)
    requests of it at one instant. */
module LimiterOrphans {
  import opened RateWindow
  import opened LimiterThreads

  function IdsBelow(n: nat): set<EntryId> {
    set id: EntryId | id < n && Below(id, n)
  }

  predicate Below(id: EntryId, n: nat) {
    id < n
  }

  lemma {:induction false} IdsBelowSize(n: nat)
    ensures |IdsBelow(n)| == n
  {
    if n > 0 {
      IdsBelowSize(n - 1);
      IdsBelowNext(IdsBelow(n - 1), n - 1);
    }
  }

  function TicketsOf(s: Store, id: EntryId): set<Thread> {
    set t | t in s.tickets && s.tickets[t] == id
  }

  // ---------- fetching, round after round ----------

  /** `n` entries of the key are orphans, and `j` requests have fetched the entry now in the map. */
  ghost predicate Shape(s: Store, key: string, n: nat, j: nat) {
    && s.clock == 0 && s.log == [] && s.sweeper == Resting && s.orphans == IdsBelow(n)
    && s.items == (if j == 0 then map[] else map[key := n])
    && s.heap.Keys == IdsBelow(if j == 0 then n else n + 1)
    && forall id :: id in s.heap ==> s.heap[id] == Entry(key, [])
  }

  /** Every entry has been fetched by at most `limit` requests; `threads` in all, none has decided. */
  ghost predicate Held(s: Store, limit: nat, n: nat, j: nat, threads: nat) {
    && (forall id: EntryId :: |TicketsOf(s, id)| <= limit)
    && (forall t: Thread :: t in s.tickets <==> t < threads)
    && (forall t :: t in s.tickets ==> s.tickets[t] in s.heap)
    && |s.tickets| == threads && |TicketsOf(s, n)| == j
  }

  ghost predicate Waiting(s: Store, key: string, limit: nat, n: nat, j: nat, threads: nat) {
    Shape(s, key, n, j) && Held(s, limit, n, j, threads)
  }

  function FetchStep(key: string, n: nat, j: nat, threads: nat): Step {
    Fetch(threads, key, if j == 0 then n else n + 1)
  }

  lemma FetchNext(cfg: string -> RateConfig, s: Store, key: string, limit: nat, n: nat, j: nat, threads: nat)
    requires Waiting(s, key, limit, n, j, threads) && j < limit
    ensures var fetch := FetchStep(key, n, j, threads);
            Enabled(s, fetch) && Waiting(Next(cfg, s, fetch), key, limit, n, j + 1, threads + 1)
  {
    ShapeNext(cfg, s, key, n, j, threads);
    HeldNext(s, Next(cfg, s, FetchStep(key, n, j, threads)), limit, n, j, threads);
  }

  lemma ShapeNext(cfg: string -> RateConfig, s: Store, key: string, n: nat, j: nat, threads: nat)
    requires Shape(s, key, n, j) && threads !in s.tickets
    ensures Enabled(s, FetchStep(key, n, j, threads))
    ensures var s' := Next(cfg, s, FetchStep(key, n, j, threads));
            Shape(s', key, n, j + 1) && s'.tickets == s.tickets[threads := n] && s.heap.Keys <= s'.heap.Keys
              && n in s'.heap
  {
    var s' := Next(cfg, s, FetchStep(key, n, j, threads));
    if j == 0 {
      assert s'.heap == s.heap[n := Entry(key, [])] && s'.items == map[key := n];
      IdsBelowNext(s.heap.Keys, n);
    } else {
      assert s'.heap == s.heap && s'.items == s.items;
    }
  }

  lemma IdsBelowNext(ids: set<EntryId>, n: nat)
    requires ids == IdsBelow(n)
    ensures ids + {n} == IdsBelow(n + 1)
  {
  }

  lemma HeldNext(s: Store, s': Store, limit: nat, n: nat, j: nat, threads: nat)
    requires Held(s, limit, n, j, threads) && j < limit && s'.tickets == s.tickets[threads := n]
    requires s.heap.Keys <= s'.heap.Keys && n in s'.heap
    ensures Held(s', limit, n, j + 1, threads + 1)
  {
    forall id: EntryId ensures |TicketsOf(s', id)| <= limit {
      HeldOne(s, s', limit, n, j, threads, id);
    }
    HeldOne(s, s', limit, n, j, threads, n);
    TicketMore(s.tickets, threads, n);
  }

  lemma HeldOne(s: Store, s': Store, limit: nat, n: nat, j: nat, threads: nat, id: EntryId)
    requires |TicketsOf(s, id)| <= limit && |TicketsOf(s, n)| == j < limit
    requires threads !in s.tickets && s'.tickets == s.tickets[threads := n]
    ensures |TicketsOf(s', id)| <= limit && (id == n ==> |TicketsOf(s', id)| == j + 1)
  {
    TicketAdded(s, s', threads, n, id);
  }

  lemma TicketMore(tickets: map<Thread, EntryId>, t: Thread, n: EntryId)
    requires t !in tickets
    ensures |tickets[t := n]| == |tickets| + 1
  {
    assert tickets[t := n].Keys == tickets.Keys + {t};
  }

  lemma TicketAdded(s: Store, s': Store, t: Thread, n: EntryId, id: EntryId)
    requires t !in s.tickets && s'.tickets == s.tickets[t := n]
    ensures TicketsOf(s', id) == TicketsOf(s, id) + if id == n then {t} else {}
  {
  }

  /** A sweep of the untouched entry makes it an orphan. */
  lemma OrphanNext(cfg: string -> RateConfig, s: Store, key: string, limit: nat, n: nat, threads: nat)
    requires Waiting(s, key, limit, n, limit, threads) && 0 < limit
    ensures Enabled(s, StartSweep(0))
    ensures var s1 := Next(cfg, s, StartSweep(0));
            && Enabled(s1, SweepEntry(key))
            && var s2 := Next(cfg, s1, SweepEntry(key));
               Enabled(s2, EndSweep) && Waiting(Next(cfg, s2, EndSweep), key, limit, n + 1, 0, threads)
  {
    var s1 := Next(cfg, s, StartSweep(0));
    assert s1.heap[n].timestamps == [];
    assert n in s1.tickets.Values by {
      var t :| t in TicketsOf(s, n);
      assert s1.tickets[t] == n;
    }
    var s2 := Next(cfg, s1, SweepEntry(key));
    assert s2.items == map[] && s2.orphans == IdsBelow(n) + {n};
    var s3 := Next(cfg, s2, EndSweep);
    assert s3.tickets == s.tickets;
    forall id ensures TicketsOf(s3, id) == TicketsOf(s, id) {}
    assert TicketsOf(s3, n + 1) == {} by {
      forall t | t in s3.tickets ensures s3.tickets[t] != n + 1 { assert s.tickets[t] in s.heap; }
    }
  }

  // ---------- all decide at one instant ----------

  predicate AllZero(stamps: seq<int>) {
    forall i :: 0 <= i < |stamps| ==> stamps[i] == 0
  }

  lemma {:induction false} AllZeroRecent(stamps: seq<int>, window: int)
    requires AllZero(stamps) && 0 < window
    ensures Recent(stamps, 0, window) == stamps
  {
    if stamps != [] {
      var init := stamps[..|stamps| - 1];
      AllZeroRecent(init, window);
      assert stamps == init + [0];
    }
  }

  ghost predicate RoomFor(s: Store, key: string, limit: int, id: EntryId)
    requires id in s.heap
  {
    s.heap[id].key == key && AllZero(s.heap[id].timestamps) && |s.heap[id].timestamps| + |TicketsOf(s, id)| <= limit
  }

  /** Everything happened at time 0, and every entry has room for the requests that hold it. */
  ghost predicate Deciding(s: Store, key: string, limit: int, total: nat) {
    && s.clock == 0 && |s.log| + |s.tickets| == total
    && (forall id :: id in s.heap ==> RoomFor(s, key, limit, id))
    && (forall t :: t in s.tickets ==> s.tickets[t] in s.heap)
    && (forall i :: 0 <= i < |s.log| ==> s.log[i].key == key && s.log[i].at == 0)
  }

  lemma TicketGone(s: Store, s': Store, t: Thread, id: EntryId)
    requires t in s.tickets && s'.tickets == s.tickets - {t}
    ensures TicketsOf(s', id) == TicketsOf(s, id) - (if id == s.tickets[t] then {t} else {})
    ensures t in TicketsOf(s, s.tickets[t])
  {
  }

  /** What decisions leave alone. */
  predicate SameRest(s: Store, s': Store) {
    s'.orphans == s.orphans && s'.items == s.items && s'.sweeper == s.sweeper
  }

  lemma Admits(cfg: string -> RateConfig, s: Store, key: string, total: nat, t: Thread)
    requires Deciding(s, key, cfg(key).limit, total) && 0 < cfg(key).window && t in s.tickets
    ensures Enabled(s, Decide(t, 0))
    ensures var s', id := Next(cfg, s, Decide(t, 0)), s.tickets[t];
            && s'.tickets == s.tickets - {t} && s'.clock == 0 && SameRest(s, s')
            && s'.heap == s.heap[id := Entry(key, s.heap[id].timestamps + [0])]
            && s'.log == s.log + [Admission(key, id, 0)]
  {
    var id := s.tickets[t];
    assert RoomFor(s, key, cfg(key).limit, id);
    AllZeroRecent(s.heap[id].timestamps, cfg(key).window);
    assert {t} <= TicketsOf(s, id);
    assert |TicketsOf(s, id)| >= 1 by { assert TicketsOf(s, id) == {t} + (TicketsOf(s, id) - {t}); }
  }

  lemma DecideNext(cfg: string -> RateConfig, s: Store, key: string, total: nat, t: Thread)
    requires Deciding(s, key, cfg(key).limit, total) && 0 < cfg(key).window && t in s.tickets
    ensures Enabled(s, Decide(t, 0)) && Deciding(Next(cfg, s, Decide(t, 0)), key, cfg(key).limit, total)
    ensures SameRest(s, Next(cfg, s, Decide(t, 0))) && Next(cfg, s, Decide(t, 0)).heap.Keys == s.heap.Keys
  {
    Admits(cfg, s, key, total, t);
    var s' := Next(cfg, s, Decide(t, 0));
    forall id | id in s'.heap ensures RoomFor(s', key, cfg(key).limit, id) {
      assert RoomFor(s, key, cfg(key).limit, id);
      TicketGone(s, s', t, id);
    }
    assert s'.tickets.Keys == s.tickets.Keys - {t};
  }

  lemma {:induction false} DecideAll(cfg: string -> RateConfig, s: Store, key: string, total: nat)
    returns (steps: seq<Step>)
    requires Deciding(s, key, cfg(key).limit, total) && 0 < cfg(key).window
    ensures CanRun(cfg, s, steps)
    ensures var s' := Run(cfg, s, steps);
            && Deciding(s', key, cfg(key).limit, total) && |s'.log| == total && s'.tickets == map[]
            && SameRest(s, s') && s'.heap.Keys == s.heap.Keys
    decreases |s.tickets|
  {
    if s.tickets == map[] {
      steps := [];
    } else {
      var t :| t in s.tickets;
      DecideNext(cfg, s, key, total, t);
      steps := DecideAll(cfg, Next(cfg, s, Decide(t, 0)), key, total);
      Cons(cfg, s, Decide(t, 0), steps);
      steps := [Decide(t, 0)] + steps;
    }
  }

  lemma {:induction false} AllInWindow(log: seq<Admission>, key: string, window: int)
    requires 0 < window && forall i :: 0 <= i < |log| ==> log[i].key == key && log[i].at == 0
    ensures CountIn(StampsOfKey(log, key), 0, window) == |log|
  {
    if log != [] {
      AllInWindow(log[..|log| - 1], key, window);
      CountSnoc(StampsOfKey(log[..|log| - 1], key), 0, 0, window);
    }
  }

  // ---------- the whole run ----------

  lemma {:induction false} Append(cfg: string -> RateConfig, s: Store, a: seq<Step>, b: seq<Step>)
    requires CanRun(cfg, s, a) && CanRun(cfg, Run(cfg, s, a), b)
    ensures CanRun(cfg, s, a + b) && Run(cfg, s, a + b) == Run(cfg, Run(cfg, s, a), b)
    decreases |a|
  {
    if a == [] {
      assert a + b == b;
    } else {
      Append(cfg, Next(cfg, s, a[0]), a[1..], b);
      assert (a + b)[1..] == a[1..] + b;
    }
  }

  /** The rest of the fetches of one round. */
  lemma {:induction false} FetchRound(cfg: string -> RateConfig, s: Store, key: string, limit: nat, n: nat, j: nat,
                                      threads: nat)
    returns (steps: seq<Step>)
    requires Waiting(s, key, limit, n, j, threads) && j <= limit
    ensures CanRun(cfg, s, steps) && Waiting(Run(cfg, s, steps), key, limit, n, limit, threads + (limit - j))
    decreases limit - j
  {
    if j == limit {
      steps := [];
    } else {
      FetchNext(cfg, s, key, limit, n, j, threads);
      var fetch := FetchStep(key, n, j, threads);
      steps := FetchRound(cfg, Next(cfg, s, fetch), key, limit, n, j + 1, threads + 1);
      Cons(cfg, s, fetch, steps);
      steps := [fetch] + steps;
    }
  }

  lemma SweepRound(cfg: string -> RateConfig, s: Store, key: string, limit: nat, n: nat, threads: nat)
    returns (steps: seq<Step>)
    requires Waiting(s, key, limit, n, limit, threads) && 0 < limit
    ensures CanRun(cfg, s, steps) && Waiting(Run(cfg, s, steps), key, limit, n + 1, 0, threads)
  {
    OrphanNext(cfg, s, key, limit, n, threads);
    var s1 := Next(cfg, s, StartSweep(0));
    var s2 := Next(cfg, s1, SweepEntry(key));
    Cons(cfg, s2, EndSweep, []);
    Cons(cfg, s1, SweepEntry(key), [EndSweep] + []);
    Cons(cfg, s, StartSweep(0), [SweepEntry(key)] + ([EndSweep] + []));
    steps := [StartSweep(0)] + ([SweepEntry(key)] + ([EndSweep] + []));
  }

  ghost predicate Overfull(cfg: string -> RateConfig, s: Store, key: string, orphans: nat, admissions: nat) {
    |OrphansOf(s, key)| == orphans && CountIn(StampsOfKey(s.log, key), 0, cfg(key).window) == admissions
  }

  /** `left` rounds that each leave an orphan. */
  lemma {:induction false} OrphanRounds(cfg: string -> RateConfig, s: Store, key: string, limit: nat, n: nat,
                                        threads: nat, left: nat,
                                        goal: nat, total: nat) returns (steps: seq<Step>, s': Store)
    requires Waiting(s, key, limit, n, 0, threads) && 0 < limit && goal == n + left
             && total == Grown(threads, limit, left)
    ensures CanRun(cfg, s, steps) && s' == Run(cfg, s, steps) && Waiting(s', key, limit, goal, 0, total)
    decreases left
  {
    if left == 0 {
      steps, s' := [], s;
    } else {
      GrownNext(threads, limit, left);
      var first := OrphanRound(cfg, s, key, limit, n, threads);
      var rest;
      rest, s' := OrphanRounds(cfg, Run(cfg, s, first), key, limit, n + 1, threads + limit, left - 1, goal, total);
      Append(cfg, s, first, rest);
      steps := first + rest;
    }
  }

  /** `threads` requests, and `limit` more in each of the `left` rounds. */
  function Grown(threads: nat, limit: nat, left: nat): nat
    decreases left
  {
    if left == 0 then threads else Grown(threads + limit, limit, left - 1)
  }

  lemma GrownNext(threads: nat, limit: nat, left: nat)
    requires left > 0
    ensures Grown(threads, limit, left) == Grown(threads + limit, limit, left - 1)
  {
  }

  lemma {:induction false} GrownIs(threads: nat, limit: nat, left: nat)
    ensures Grown(threads, limit, left) == threads + limit * left
    decreases left
  {
    if left > 0 {
      GrownIs(threads + limit, limit, left - 1);
      assert limit * left == limit * (left - 1) + limit;
    }
  }

  lemma OrphanRound(cfg: string -> RateConfig, s: Store, key: string, limit: nat, n: nat, threads: nat)
    returns (steps: seq<Step>)
    requires Waiting(s, key, limit, n, 0, threads) && 0 < limit
    ensures CanRun(cfg, s, steps) && Waiting(Run(cfg, s, steps), key, limit, n + 1, 0, threads + limit)
  {
    steps := FetchRound(cfg, s, key, limit, n, 0, threads);
    var sweep := SweepRound(cfg, Run(cfg, s, steps), key, limit, n, threads + limit);
    Append(cfg, s, steps, sweep);
    steps := steps + sweep;
  }

  lemma FinalRound(cfg: string -> RateConfig, s: Store, key: string, limit: nat, n: nat, threads: nat)
    returns (steps: seq<Step>)
    requires limit == cfg(key).limit && 1 <= limit && 0 < cfg(key).window && Waiting(s, key, limit, n, 0, threads)
    ensures CanRun(cfg, s, steps) && Overfull(cfg, Run(cfg, s, steps), key, n, threads + limit)
  {
    steps := FetchRound(cfg, s, key, limit, n, 0, threads);
    var rest := LastRound(cfg, Run(cfg, s, steps), key, n, threads + limit);
    Append(cfg, s, steps, rest);
    steps := steps + rest;
  }

  lemma WaitingDecides(s: Store, key: string, limit: nat, n: nat, threads: nat)
    requires Waiting(s, key, limit, n, limit, threads)
    ensures Deciding(s, key, limit, threads)
  {
    forall id | id in s.heap ensures RoomFor(s, key, limit, id) {}
  }

  lemma LastRound(cfg: string -> RateConfig, s: Store, key: string, n: nat, threads: nat) returns (steps: seq<Step>)
    requires 1 <= cfg(key).limit && 0 < cfg(key).window && Waiting(s, key, cfg(key).limit, n, cfg(key).limit, threads)
    ensures CanRun(cfg, s, steps)
    ensures Overfull(cfg, Run(cfg, s, steps), key, n, threads)
  {
    WaitingDecides(s, key, cfg(key).limit, n, threads);
    steps := DecideAll(cfg, s, key, threads);
    var s' := Run(cfg, s, steps);
    assert OrphansOf(s', key) == IdsBelow(n) by {
      forall id | id in s'.heap ensures s'.heap[id].key == key { assert RoomFor(s', key, cfg(key).limit, id); }
    }
    IdsBelowSize(n);
    AllInWindow(s'.log, key, cfg(key).window);
  }

  lemma StartWaits(key: string, limit: nat)
    ensures Waiting(Start(0), key, limit, 0, 0, 0)
  {
    forall id: EntryId ensures |TicketsOf(Start(0), id)| == 0 { assert TicketsOf(Start(0), id) == {}; }
  }

  /** The factor 1 + orphans is reached, for every limit and window of the key and every number of orphans. */
  lemma OrphansAdmitMore(cfg: string -> RateConfig, key: string, n: nat) returns (steps: seq<Step>)
    requires 1 <= cfg(key).limit && 0 < cfg(key).window
    ensures CanRun(cfg, Start(0), steps)
    ensures var s := Run(cfg, Start(0), steps);
            && |OrphansOf(s, key)| == n
            && CountIn(StampsOfKey(s.log, key), 0, cfg(key).window) == cfg(key).limit * (1 + n)
  {
    StartWaits(key, cfg(key).limit);
    var s;
    steps, s := OrphanRounds(cfg, Start(0), key, cfg(key).limit, 0, 0, n, n, Grown(0, cfg(key).limit, n));
    var last := FinalRound(cfg, s, key, cfg(key).limit, n, Grown(0, cfg(key).limit, n));
    Append(cfg, Start(0), steps, last);
    steps := steps + last;
    GrownIs(0, cfg(key).limit, n);
    assert cfg(key).limit * (1 + n) == cfg(key).limit * n + cfg(key).limit;
  }

  // ---------- a window over two minutes ----------

  /** Entry 0 of the key has admitted `limit` requests at time 0; nobody is waiting. */
  ghost predicate Full(s: Store, key: string, limit: nat) {
    && s.clock == 0 && s.tickets == map[] && s.sweeper == Resting && s.orphans == {}
    && s.items == map[key := 0] && 0 in s.heap && s.heap[0].key == key && AllZero(s.heap[0].timestamps) && 1 !in s.heap
    && |s.log| == limit && forall i :: 0 <= i < |s.log| ==> s.log[i].key == key && s.log[i].at == 0
  }

  lemma ReachFull(cfg: string -> RateConfig, key: string) returns (steps: seq<Step>, s: Store)
    requires 1 <= cfg(key).limit && 0 < cfg(key).window
    ensures CanRun(cfg, Start(0), steps) && s == Run(cfg, Start(0), steps) && Full(s, key, cfg(key).limit)
  {
    var limit := cfg(key).limit;
    StartWaits(key, limit);
    steps := FetchRound(cfg, Start(0), key, limit, 0, 0, 0);
    var s1 := Run(cfg, Start(0), steps);
    WaitingDecides(s1, key, limit, 0, limit);
    var rest := DecideAll(cfg, s1, key, limit);
    Append(cfg, Start(0), steps, rest);
    steps := steps + rest;
    s := Run(cfg, Start(0), steps);
    assert 0 in IdsBelow(1) && 1 !in IdsBelow(1);
    assert RoomFor(s, key, limit, 0);
    assert s.orphans == IdsBelow(0) == {};
  }

  lemma {:induction false} AllZeroOld(stamps: seq<int>)
    requires AllZero(stamps)
    ensures Recent(stamps, HORIZON, HORIZON) == []
  {
    if stamps != [] {
      AllZeroOld(stamps[..|stamps| - 1]);
    }
  }

  /** The sweep two minutes later deletes the entry, which is no orphan. */
  lemma SweepForgets(cfg: string -> RateConfig, s: Store, key: string, limit: nat) returns (steps: seq<Step>, s': Store)
    requires Full(s, key, limit)
    ensures CanRun(cfg, s, steps) && s' == Run(cfg, s, steps)
    ensures s'.clock == HORIZON && s'.items == map[] && s'.tickets == map[] && s'.sweeper == Resting && s'.orphans == {}
    ensures s'.log == s.log && s'.heap.Keys == s.heap.Keys
  {
    var s1 := Next(cfg, s, StartSweep(HORIZON));
    AllZeroOld(s1.heap[0].timestamps);
    var s2 := Next(cfg, s1, SweepEntry(key));
    assert s2.items == map[] && s2.orphans == {};
    s' := Next(cfg, s2, EndSweep);
    Cons(cfg, s2, EndSweep, []);
    Cons(cfg, s1, SweepEntry(key), [EndSweep] + []);
    Cons(cfg, s, StartSweep(HORIZON), [SweepEntry(key)] + ([EndSweep] + []));
    steps := [StartSweep(HORIZON)] + ([SweepEntry(key)] + ([EndSweep] + []));
  }

  /** The next request starts a new entry and is admitted. */
  lemma NewEntryAdmits(cfg: string -> RateConfig, s: Store, key: string) returns (steps: seq<Step>)
    requires s.clock == HORIZON && s.items == map[] && s.tickets == map[] && s.sweeper == Resting && 1 !in s.heap
    requires 1 <= cfg(key).limit
    ensures CanRun(cfg, s, steps)
    ensures Run(cfg, s, steps).orphans == s.orphans && Run(cfg, s, steps).log == s.log + [Admission(key, 1, HORIZON)]
  {
    var s1 := Next(cfg, s, Fetch(0, key, 1));
    assert s1.heap[1] == Entry(key, []) && s1.tickets == map[0 := 1];
    Cons(cfg, s1, Decide(0, HORIZON), []);
    Cons(cfg, s, Fetch(0, key, 1), [Decide(0, HORIZON)] + []);
    steps := [Fetch(0, key, 1)] + ([Decide(0, HORIZON)] + []);
  }

  /** For every limit and every window over two minutes, a run without any orphan passes the limit. */
  lemma LongWindowAdmitsMore(cfg: string -> RateConfig, key: string) returns (steps: seq<Step>)
    requires 1 <= cfg(key).limit && HORIZON < cfg(key).window
    ensures CanRun(cfg, Start(0), steps) && Run(cfg, Start(0), steps).orphans == {}
    ensures CountIn(StampsOfKey(Run(cfg, Start(0), steps).log, key), 0, cfg(key).window) == cfg(key).limit + 1
  {
    var s, s1;
    steps, s := ReachFull(cfg, key);
    var sweep;
    sweep, s1 := SweepForgets(cfg, s, key, cfg(key).limit);
    Append(cfg, Start(0), steps, sweep);
    steps := steps + sweep;
    var last := NewEntryAdmits(cfg, s1, key);
    Append(cfg, Start(0), steps, last);
    steps := steps + last;
    AllInWindow(s.log, key, cfg(key).window);
    OneMoreInWindow(s.log, key, cfg(key).window);
  }

  lemma OneMoreInWindow(log: seq<Admission>, key: string, window: int)
    requires HORIZON < window
    ensures CountIn(StampsOfKey(log + [Admission(key, 1, HORIZON)], key), 0, window)
            == CountIn(StampsOfKey(log, key), 0, window) + 1
  {
    var more := log + [Admission(key, 1, HORIZON)];
    assert more[..|more| - 1] == log;
    CountSnoc(StampsOfKey(log, key), HORIZON, 0, window);
  }

  // ---------- configurations that admit nothing, or windows that hold nothing ----------

  predicate NoneOf(log: seq<Admission>, key: string) {
    forall i :: 0 <= i < |log| ==> log[i].key != key
  }

  lemma {:induction false} NothingAdmitted(cfg: string -> RateConfig, s: Store, steps: seq<Step>, key: string)
    requires cfg(key).limit < 1 && CanRun(cfg, s, steps) && NoneOf(s.log, key)
    ensures NoneOf(Run(cfg, s, steps).log, key)
    decreases |steps|
  {
    if steps != [] {
      NothingAdmitted(cfg, Next(cfg, s, steps[0]), steps[1..], key);
    }
  }

  lemma {:induction false} NoneCounted(log: seq<Admission>, key: string, from: int, span: int)
    requires NoneOf(log, key)
    ensures CountIn(StampsOfKey(log, key), from, span) == 0
  {
    if log != [] {
      NoneCounted(log[..|log| - 1], key, from, span);
      assert StampsOfKey(log[..|log| - 1], key) + [] == StampsOfKey(log[..|log| - 1], key);
    }
  }

  lemma {:induction false} EmptyWindow(stamps: seq<int>, from: int, span: int)
    requires span <= 0
    ensures CountIn(stamps, from, span) == 0
  {
    if stamps != [] {
      EmptyWindow(stamps[..|stamps| - 1], from, span);
    }
  }

  // ---------- exactly when the limit is kept ----------

  ghost predicate WithinLimit(cfg: string -> RateConfig, key: string, n: nat, clock: int, steps: seq<Step>, from: int) {
    CanRun(cfg, Start(clock), steps) && |OrphansOf(Run(cfg, Start(clock), steps), key)| <= n ==>
      CountIn(StampsOfKey(Run(cfg, Start(clock), steps).log, key), from, cfg(key).window) <= Cap(cfg(key).limit)
  }

  /** A limit that admits nothing or a window that holds nothing; else no orphan and at most two minutes. */
  predicate Keeps(cfg: RateConfig, n: nat) {
    cfg.limit < 1 || cfg.window <= 0 || (n == 0 && cfg.window <= HORIZON)
  }

  lemma KeepsLimit(cfg: string -> RateConfig, key: string, n: nat, clock: int, steps: seq<Step>, from: int)
    requires Keeps(cfg(key), n)
    ensures WithinLimit(cfg, key, n, clock, steps, from)
  {
    if CanRun(cfg, Start(clock), steps) {
      var s := Run(cfg, Start(clock), steps);
      if cfg(key).limit < 1 {
        NothingAdmitted(cfg, Start(clock), steps, key);
        NoneCounted(s.log, key, from, cfg(key).window);
      } else if cfg(key).window <= 0 {
        EmptyWindow(StampsOfKey(s.log, key), from, cfg(key).window);
      } else {
        KeyBounded(cfg, clock, steps, key, from);
      }
    }
  }

  lemma BreaksLimit(cfg: string -> RateConfig, key: string, n: nat) returns (steps: seq<Step>)
    requires !Keeps(cfg(key), n)
    ensures !WithinLimit(cfg, key, n, 0, steps, 0)
  {
    if cfg(key).window <= HORIZON {
      steps := OrphansAdmitMore(cfg, key, 1);
    } else {
      steps := LongWindowAdmitsMore(cfg, key);
      assert OrphansOf(Run(cfg, Start(0), steps), key) == {};
    }
  }

  /** A key keeps its limit in every run with at most `n` orphans of it exactly when `n` is zero and its window is
      at most two minutes, or nothing can be admitted or counted at all. */
  lemma LimitKeptIff(cfg: string -> RateConfig, key: string, n: nat)
    ensures (forall clock, steps, from :: WithinLimit(cfg, key, n, clock, steps, from)) <==> Keeps(cfg(key), n)
  {
    if Keeps(cfg(key), n) {
      forall clock, steps, from ensures WithinLimit(cfg, key, n, clock, steps, from) {
        KeepsLimit(cfg, key, n, clock, steps, from);
      }
    } else {
      var steps := BreaksLimit(cfg, key, n);
    }
  }
}
