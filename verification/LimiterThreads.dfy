/** The in-memory limiter under real interleavings (middlewares/mennanov_ratelimit.go:33-99).

    A request runs two critical sections: it fetches (or creates) the entry of its key
    under s.mu, and later decides under entry.mu.  A sweep holds s.mu throughout, reads
    the clock once, and takes each entry.mu in turn.  Any schedule of these sections is a
    run of this system.  A sweep may delete an entry that a request has fetched but not
    yet locked; such an entry is an orphan, and the next request of the key starts a new
    entry.  Orphans are the only way past the limit: in every run the admissions of a key
    in any window number at most limit * (1 + orphans of the key).  LimiterOrphans shows that
    every such number is reached. */
module LimiterThreads {
  import opened Common
  import opened RateWindow

  type Thread = nat
  type EntryId = nat

  datatype Entry = Entry(key: string, timestamps: seq<int>)
  datatype Admission = Admission(key: string, id: EntryId, at: int)
  datatype Sweeper = Resting | Sweeping(now: int, todo: set<string>)

  datatype Store = Store(
    items: map<string, EntryId>,     // s.items
    heap: map<EntryId, Entry>,       // every entry ever allocated
    tickets: map<Thread, EntryId>,   // requests between their two critical sections
    sweeper: Sweeper,
    clock: int,                      // the latest time.Now() any section has read
    log: seq<Admission>,             // history: every admission, in order
    orphans: set<EntryId>)           // history: entries deleted while fetched

  datatype Step =
    | Fetch(thread: Thread, key: string, unused: EntryId)
    | Decide(thread: Thread, now: int)
    | StartSweep(now: int)
    | SweepEntry(key: string)
    | EndSweep

  function Start(clock: int): Store {
    Store(map[], map[], map[], Resting, clock, [], {})
  }

  predicate Enabled(s: Store, step: Step) {
    match step
    case Fetch(thread, key, unused) => s.sweeper.Resting? && thread !in s.tickets && unused !in s.heap
    case Decide(thread, now) => thread in s.tickets && s.tickets[thread] in s.heap && s.clock <= now
    case StartSweep(now) => s.sweeper.Resting? && s.clock <= now
    case SweepEntry(key) => s.sweeper.Sweeping? && key in s.sweeper.todo && key in s.items && s.items[key] in s.heap
    case EndSweep => s.sweeper.Sweeping? && s.sweeper.todo == {}
  }

  function Next(cfg: string -> RateConfig, s: Store, step: Step): Store
    requires Enabled(s, step)
  {
    match step
    case Fetch(thread, key, unused) =>
      if key in s.items then s.(tickets := s.tickets[thread := s.items[key]])
      else s.(items := s.items[key := unused], heap := s.heap[unused := Entry(key, [])],
              tickets := s.tickets[thread := unused])
    case Decide(thread, now) =>
      var id := s.tickets[thread];
      var Entry(key, timestamps) := s.heap[id];
      var kept := Recent(timestamps, now, cfg(key).window);
      var s' := s.(tickets := s.tickets - {thread}, clock := now);
      if |kept| < cfg(key).limit
      then s'.(heap := s.heap[id := Entry(key, kept + [now])], log := s.log + [Admission(key, id, now)])
      else s'.(heap := s.heap[id := Entry(key, kept)])
    case StartSweep(now) => s.(sweeper := Sweeping(now, s.items.Keys), clock := now)
    case SweepEntry(key) =>
      var id := s.items[key];
      var kept := Recent(s.heap[id].timestamps, s.sweeper.now, HORIZON);
      var s' := s.(heap := s.heap[id := s.heap[id].(timestamps := kept)],
                   sweeper := s.sweeper.(todo := s.sweeper.todo - {key}));
      if kept != [] then s'
      else s'.(items := s.items - {key}, orphans := if id in s.tickets.Values then s.orphans + {id} else s.orphans)
    case EndSweep => s.(sweeper := Resting)
  }

  /** A run: every step is enabled when it happens. */
  predicate CanRun(cfg: string -> RateConfig, s: Store, steps: seq<Step>)
    decreases |steps|
  {
    steps == [] || (Enabled(s, steps[0]) && CanRun(cfg, Next(cfg, s, steps[0]), steps[1..]))
  }

  function Run(cfg: string -> RateConfig, s: Store, steps: seq<Step>): Store
    requires CanRun(cfg, s, steps)
    decreases |steps|
  {
    if steps == [] then s else Run(cfg, Next(cfg, s, steps[0]), steps[1..])
  }

  function Fetches(steps: seq<Step>): nat {
    if steps == [] then 0 else (if steps[0].Fetch? then 1 else 0) + Fetches(steps[1..])
  }

  function Decides(steps: seq<Step>): nat {
    if steps == [] then 0 else (if steps[0].Decide? then 1 else 0) + Decides(steps[1..])
  }

  lemma StepTickets(cfg: string -> RateConfig, s: Store, e: Step)
    requires Enabled(s, e)
    ensures |s.tickets| + (if e.Fetch? then 1 else 0) == |Next(cfg, s, e).tickets| + if e.Decide? then 1 else 0
  {
    if e.Fetch? || e.Decide? {
      MapSizes(s.tickets, e.thread, if e.Fetch? then Next(cfg, s, e).tickets[e.thread] else 0);
    }
  }

  /** Every request that has fetched its entry is decided once, or still waits. */
  lemma {:induction false} RequestsConserved(cfg: string -> RateConfig, s: Store, steps: seq<Step>)
    requires CanRun(cfg, s, steps)
    ensures |s.tickets| + Fetches(steps) == |Run(cfg, s, steps).tickets| + Decides(steps)
    decreases |steps|
  {
    if steps != [] {
      StepTickets(cfg, s, steps[0]);
      RequestsConserved(cfg, Next(cfg, s, steps[0]), steps[1..]);
    }
  }

  // ---------- what the admission log says about an entry and about a key ----------

  /** The admissions of one entry. */
  function StampsOf(log: seq<Admission>, id: EntryId): seq<int> {
    if log == [] then [] else
      var last := log[|log| - 1];
      StampsOf(log[..|log| - 1], id) + if last.id == id then [last.at] else []
  }

  /** The admissions of one key, over all its entries. */
  function StampsOfKey(log: seq<Admission>, key: string): seq<int> {
    if log == [] then [] else
      var last := log[|log| - 1];
      StampsOfKey(log[..|log| - 1], key) + if last.key == key then [last.at] else []
  }

  function OrphansOf(s: Store, key: string): set<EntryId> {
    set id | id in s.orphans && id in s.heap && s.heap[id].key == key
  }

  lemma StampsOfSnoc(log: seq<Admission>, a: Admission, id: EntryId)
    ensures StampsOf(log + [a], id) == StampsOf(log, id) + if a.id == id then [a.at] else []
  {
    assert (log + [a])[..|log|] == log;
  }

  lemma {:induction false} StampsOfHas(log: seq<Admission>, a: Admission)
    requires a in log
    ensures a.at in StampsOf(log, a.id)
  {
    if a != log[|log| - 1] {
      StampsOfHas(log[..|log| - 1], a);
    }
  }

  lemma {:induction false} RecentHas(log: seq<int>, x: int, now: int, window: int)
    requires x in log && now - x < window
    ensures x in Recent(log, now, window)
  {
    if x != log[|log| - 1] {
      RecentHas(log[..|log| - 1], x, now, window);
    }
  }

  // ---------- the invariant ----------

  /** A key's entry is not an orphan; a ticket points to the entry in use or to an orphan. */
  ghost predicate Linked(s: Store) {
    && (forall key :: key in s.items ==> InUse(s, s.items[key]) && s.heap[s.items[key]].key == key)
    && (forall t :: t in s.tickets ==> InUse(s, s.tickets[t]) || s.tickets[t] in s.orphans)
    && s.orphans <= s.heap.Keys
    && (forall id :: id in s.orphans ==> !InUse(s, id))
    && (s.sweeper.Sweeping? ==> s.sweeper.todo <= s.items.Keys && s.sweeper.now <= s.clock)
  }

  predicate InUse(s: Store, id: EntryId) {
    id in s.heap && s.heap[id].key in s.items && s.items[s.heap[id].key] == id
  }

  ghost predicate EntryOk(cfg: string -> RateConfig, s: Store, id: EntryId)
    requires id in s.heap
  {
    && SameView(s.heap[id].timestamps, StampsOf(s.log, id), s.clock, cfg(s.heap[id].key).window)
    && Bounded(StampsOf(s.log, id), cfg(s.heap[id].key))
  }

  /** An entry deleted while nobody had fetched it has only admissions that no later window reaches. */
  predicate Settled(cfg: string -> RateConfig, s: Store, a: Admission) {
    a.id in s.orphans || InUse(s, a.id) || cfg(a.key).window <= s.clock - a.at
  }

  /** Admissions of one key by two entries, neither an orphan, never share a window. */
  predicate Apart(cfg: string -> RateConfig, s: Store, a: Admission, b: Admission) {
    a.key == b.key && a.id != b.id && a.id !in s.orphans && b.id !in s.orphans ==> cfg(a.key).window <= b.at - a.at
  }

  /** Admissions were made by allocated entries of their key. */
  ghost predicate Logged(s: Store) {
    forall a :: a in s.log ==> MadeBy(s, a)
  }

  predicate MadeBy(s: Store, a: Admission) {
    a.id in s.heap && s.heap[a.id].key == a.key && a.at <= s.clock
  }

  ghost predicate Inv(cfg: string -> RateConfig, s: Store, key: string) {
    && Linked(s) && Logged(s)
    && (forall id :: id in s.heap && s.heap[id].key == key ==> EntryOk(cfg, s, id))
    && (forall a :: a in s.log && a.key == key ==> Settled(cfg, s, a))
    && (forall i, j :: 0 <= i < j < |s.log| && s.log[i].key == key ==> Apart(cfg, s, s.log[i], s.log[j]))
  }

  /** Cleanup keeps two minutes of stamps, so the window of the key may not be longer. */
  predicate ShortWindow(cfg: string -> RateConfig, key: string) {
    cfg(key).window <= HORIZON
  }

  lemma LoggedStep(cfg: string -> RateConfig, s: Store, step: Step)
    requires Logged(s) && Linked(s) && Enabled(s, step)
    ensures Logged(Next(cfg, s, step))
  {
    var s' := Next(cfg, s, step);
    forall a | a in s'.log ensures MadeBy(s', a) {
      if a in s.log {
        assert MadeBy(s, a);
      }
    }
  }

  lemma LinkedStep(cfg: string -> RateConfig, s: Store, step: Step)
    requires Linked(s) && Enabled(s, step)
    ensures Linked(Next(cfg, s, step))
  {
    if step.SweepEntry? {
      LinkedSweep(cfg, s, step.key);
    }
  }

  lemma LinkedSweep(cfg: string -> RateConfig, s: Store, key: string)
    requires Linked(s) && Enabled(s, SweepEntry(key))
    ensures Linked(Next(cfg, s, SweepEntry(key)))
  {
  }

  lemma {:induction false} NoStamps(log: seq<Admission>, id: EntryId)
    requires forall a :: a in log ==> a.id != id
    ensures StampsOf(log, id) == []
  {
    if log != [] {
      NoStamps(log[..|log| - 1], id);
    }
  }

  lemma EntryStep(cfg: string -> RateConfig, s: Store, step: Step, key: string, id: EntryId)
    requires Inv(cfg, s, key) && Enabled(s, step) && ShortWindow(cfg, key)
    requires id in Next(cfg, s, step).heap && Next(cfg, s, step).heap[id].key == key
    ensures EntryOk(cfg, Next(cfg, s, step), id)
  {
    if id !in s.heap {
      NewEntry(cfg, s, step, id);
    } else {
      assert EntryOk(cfg, s, id);
      if step.Decide? {
        DecideEntry(cfg, s, step.thread, step.now, id);
      } else if step.SweepEntry? {
        SweptEntry(cfg, s, step.key, id);
      } else {
        OtherEntry(cfg, s, step, id);
      }
    }
  }

  lemma NewEntry(cfg: string -> RateConfig, s: Store, step: Step, id: EntryId)
    requires Logged(s) && Enabled(s, step) && id !in s.heap && id in Next(cfg, s, step).heap
    ensures EntryOk(cfg, Next(cfg, s, step), id)
  {
    forall a | a in s.log ensures a.id != id { assert MadeBy(s, a); }
    NoStamps(s.log, id);
    var window := cfg(Next(cfg, s, step).heap[id].key).window;
    assert forall from :: CountIn([], from, window) == 0;
    assert SameView([], [], s.clock, window);
  }

  lemma DecideEntry(cfg: string -> RateConfig, s: Store, thread: Thread, now: int, id: EntryId)
    requires Enabled(s, Decide(thread, now)) && id in s.heap && EntryOk(cfg, s, id)
    ensures EntryOk(cfg, Next(cfg, s, Decide(thread, now)), id)
  {
    var kept, full := s.heap[id].timestamps, StampsOf(s.log, id);
    StampsOfSnoc(s.log, Admission(s.heap[s.tickets[thread]].key, s.tickets[thread], now), id);
    assert full + [] == full;
    if s.tickets[thread] == id {
      DecideKeepsView(kept, full, s.clock, cfg(s.heap[id].key), now);
    } else {
      WaitKeepsView(kept, full, s.clock, cfg(s.heap[id].key).window, now);
    }
  }

  lemma SweptEntry(cfg: string -> RateConfig, s: Store, key: string, id: EntryId)
    requires Linked(s) && Enabled(s, SweepEntry(key)) && id in s.heap && ShortWindow(cfg, s.heap[id].key)
             && EntryOk(cfg, s, id)
    ensures EntryOk(cfg, Next(cfg, s, SweepEntry(key)), id)
  {
    var window := cfg(s.heap[id].key).window;
    PruneKeepsView(s.heap[id].timestamps, StampsOf(s.log, id), s.clock, window, s.sweeper.now, HORIZON, s.clock,
      window);
  }

  lemma OtherEntry(cfg: string -> RateConfig, s: Store, step: Step, id: EntryId)
    requires Enabled(s, step) && !step.Decide? && !step.SweepEntry? && id in s.heap && EntryOk(cfg, s, id)
    ensures EntryOk(cfg, Next(cfg, s, step), id)
  {
    var s' := Next(cfg, s, step);
    WaitKeepsView(s.heap[id].timestamps, StampsOf(s.log, id), s.clock, cfg(s.heap[id].key).window, s'.clock);
  }

  /** Pruning and admitting keep the view and the bound. */
  lemma DecideKeepsView(kept: seq<int>, full: seq<int>, clock: int, cfg: RateConfig, now: int)
    requires SameView(kept, full, clock, cfg.window) && Bounded(full, cfg) && clock <= now
    ensures var valid := Recent(kept, now, cfg.window);
            && SameView(valid, full, now, cfg.window)
            && (|valid| < cfg.limit ==>
                  SameView(valid + [now], full + [now], now, cfg.window) && Bounded(full + [now], cfg))
  {
    assert SameAt(kept, full, now, cfg.window);
    PruneKeepsView(kept, full, clock, cfg.window, now, cfg.window, now, cfg.window);
    SnocKeepsView(Recent(kept, now, cfg.window), full, now, cfg.window, now);
    if |Recent(kept, now, cfg.window)| < cfg.limit {
      AdmitKeepsBound(full, cfg, now);
    }
  }

  /** A sweep that empties an entry has seen all its admissions leave the window. */
  lemma EmptiedIsOld(cfg: string -> RateConfig, s: Store, key: string, a: Admission)
    requires Inv(cfg, s, key) && Enabled(s, SweepEntry(key)) && ShortWindow(cfg, key)
    requires Recent(s.heap[s.items[key]].timestamps, s.sweeper.now, HORIZON) == []
    requires a in s.log && a.id == s.items[key]
    ensures cfg(key).window <= s.clock - a.at
  {
    assert InUse(s, s.items[key]) && MadeBy(s, a);
    var kept, full, window := s.heap[a.id].timestamps, StampsOf(s.log, a.id), cfg(key).window;
    assert EntryOk(cfg, s, a.id);
    assert SameAt(kept, full, s.clock, window);
    RecentAbsorbs(kept, s.sweeper.now, HORIZON, s.clock, window);
    StampsOfHas(s.log, a);
    if s.clock - a.at < window {
      RecentHas(full, a.at, s.clock, window);
    }
  }

  lemma SettledStep(cfg: string -> RateConfig, s: Store, step: Step, key: string, a: Admission)
    requires Inv(cfg, s, key) && Enabled(s, step) && ShortWindow(cfg, key)
    requires a in Next(cfg, s, step).log && a.key == key
    ensures Settled(cfg, Next(cfg, s, step), a)
  {
    if a in s.log {
      assert Settled(cfg, s, a) && MadeBy(s, a);
      if step.SweepEntry? {
        SettledSweep(cfg, s, step.key, key, a);
      }
    }
  }

  lemma SettledSweep(cfg: string -> RateConfig, s: Store, swept: string, key: string, a: Admission)
    requires Inv(cfg, s, key) && Enabled(s, SweepEntry(swept)) && ShortWindow(cfg, key)
    requires a in s.log && a.key == key && MadeBy(s, a) && Settled(cfg, s, a)
    ensures Settled(cfg, Next(cfg, s, SweepEntry(swept)), a)
  {
    if a.id == s.items[swept] && Recent(s.heap[a.id].timestamps, s.sweeper.now, HORIZON) == [] {
      assert InUse(s, s.items[swept]);
      EmptiedIsOld(cfg, s, key, a);
    }
  }

  lemma ApartStep(cfg: string -> RateConfig, s: Store, step: Step, key: string)
    requires Inv(cfg, s, key) && Enabled(s, step)
    ensures var s' := Next(cfg, s, step);
            forall i, j :: 0 <= i < j < |s'.log| && s'.log[i].key == key ==> Apart(cfg, s', s'.log[i], s'.log[j])
  {
    var s' := Next(cfg, s, step);
    forall i, j | 0 <= i < j < |s'.log| && s'.log[i].key == key
      ensures Apart(cfg, s', s'.log[i], s'.log[j])
    {
      assert s'.log[i] == s.log[i];
      if j < |s.log| {
        assert Apart(cfg, s, s.log[i], s.log[j]);
      } else {
        assert s.log[i] in s.log && Settled(cfg, s, s.log[i]) && MadeBy(s, s.log[i]);
      }
    }
  }

  lemma StepKeepsInv(cfg: string -> RateConfig, s: Store, step: Step, key: string)
    requires Inv(cfg, s, key) && Enabled(s, step) && ShortWindow(cfg, key)
    ensures Inv(cfg, Next(cfg, s, step), key)
  {
    var s' := Next(cfg, s, step);
    LinkedStep(cfg, s, step);
    LoggedStep(cfg, s, step);
    forall id | id in s'.heap && s'.heap[id].key == key ensures EntryOk(cfg, s', id)
      { EntryStep(cfg, s, step, key, id); }
    forall a | a in s'.log && a.key == key ensures Settled(cfg, s', a) { SettledStep(cfg, s, step, key, a); }
    ApartStep(cfg, s, step, key);
  }

  lemma StartKeepsInv(cfg: string -> RateConfig, clock: int, key: string)
    ensures Inv(cfg, Start(clock), key)
  {
  }

  lemma {:induction false} RunKeepsInv(cfg: string -> RateConfig, s: Store, steps: seq<Step>, key: string)
    requires Inv(cfg, s, key) && CanRun(cfg, s, steps) && ShortWindow(cfg, key)
    ensures Inv(cfg, Run(cfg, s, steps), key)
    decreases |steps|
  {
    if steps != [] {
      StepKeepsInv(cfg, s, steps[0], key);
      RunKeepsInv(cfg, Next(cfg, s, steps[0]), steps[1..], key);
    }
  }

  // ---------- the bounds ----------

  /** Every entry object of a key with a window of at most two minutes respects the limit in every interleaving. */
  lemma EntryBounded(cfg: string -> RateConfig, clock: int, steps: seq<Step>, id: EntryId)
    requires CanRun(cfg, Start(clock), steps) && id in Run(cfg, Start(clock), steps).heap
    requires ShortWindow(cfg, Run(cfg, Start(clock), steps).heap[id].key)
    ensures var s := Run(cfg, Start(clock), steps); Bounded(StampsOf(s.log, id), cfg(s.heap[id].key))
  {
    var key := Run(cfg, Start(clock), steps).heap[id].key;
    StartKeepsInv(cfg, clock, key);
    RunKeepsInv(cfg, Start(clock), steps, key);
    assert EntryOk(cfg, Run(cfg, Start(clock), steps), id);
  }

  /** How many admissions of `key` in [from, from + span) were made by entries in `ids`. */
  function CountBy(log: seq<Admission>, key: string, ids: set<EntryId>, from: int, span: int): nat {
    if log == [] then 0 else
      var last := log[|log| - 1];
      CountBy(log[..|log| - 1], key, ids, from, span)
      + if last.key == key && last.id in ids && from <= last.at < from + span then 1 else 0
  }

  lemma {:induction false} KeyCountIsCountBy(log: seq<Admission>, key: string, ids: set<EntryId>, from: int, span: int)
    requires forall a :: a in log && a.key == key && from <= a.at < from + span ==> a.id in ids
    ensures CountIn(StampsOfKey(log, key), from, span) == CountBy(log, key, ids, from, span)
  {
    if log != [] {
      var init, last := log[..|log| - 1], log[|log| - 1];
      KeyCountIsCountBy(init, key, ids, from, span);
      CountSnoc(StampsOfKey(init, key), last.at, from, span);
      assert last.key != key ==> StampsOfKey(log, key) == StampsOfKey(init, key);
    }
  }

  lemma {:induction false} CountByMinusOne(log: seq<Admission>, key: string, ids: set<EntryId>, id: EntryId,
                                           from: int, span: int)
    requires id in ids
    ensures CountBy(log, key, ids, from, span) <= CountBy(log, key, ids - {id}, from, span)
            + CountIn(StampsOf(log, id), from, span)
  {
    if log != [] {
      CountByMinusOne(log[..|log| - 1], key, ids, id, from, span);
      CountOfLast(log, id, from, span);
    }
  }

  lemma CountOfLast(log: seq<Admission>, id: EntryId, from: int, span: int)
    requires log != []
    ensures var last := log[|log| - 1];
            CountIn(StampsOf(log, id), from, span)
            == CountIn(StampsOf(log[..|log| - 1], id), from, span) + if last.id == id
              && from <= last.at < from + span then 1 else 0
  {
    var init, last := StampsOf(log[..|log| - 1], id), log[|log| - 1];
    CountSnoc(init, last.at, from, span);
    assert init + [] == init;
  }

  lemma {:induction false} CountByBounded(log: seq<Admission>, key: string, ids: set<EntryId>, from: int, span: int,
                                          cap: nat)
    requires forall id :: id in ids ==> CountIn(StampsOf(log, id), from, span) <= cap
    ensures CountBy(log, key, ids, from, span) <= cap * |ids|
    decreases |ids|
  {
    if ids == {} {
      CountByNone(log, key, from, span);
    } else {
      var id :| id in ids;
      var others := ids - {id};
      CountByMinusOne(log, key, ids, id, from, span);
      CountByBounded(log, key, others, from, span, cap);
      assert |ids| == |others| + 1;
      OneMore(cap, |others|, |ids|);
    }
  }

  lemma OneMore(cap: nat, n: nat, m: nat)
    requires m == n + 1
    ensures cap * m == cap * n + cap
  {
  }

  lemma {:induction false} CountByNone(log: seq<Admission>, key: string, from: int, span: int)
    ensures CountBy(log, key, {}, from, span) == 0
  {
    if log != [] {
      CountByNone(log[..|log| - 1], key, from, span);
    }
  }

  /** At most one entry that is no orphan has admitted requests of `key` in the window. */
  lemma ServingEntries(cfg: string -> RateConfig, s: Store, key: string, from: int) returns (ids: set<EntryId>)
    requires Inv(cfg, s, key)
    ensures ids <= s.heap.Keys && forall id :: id in ids ==> s.heap[id].key == key
    ensures |ids| <= 1 + |OrphansOf(s, key)|
    ensures forall a :: a in s.log && a.key == key && from <= a.at < from + cfg(key).window ==> a.id in ids
  {
    ids := OrphansOf(s, key);
    if a :| a in s.log && a.key == key && from <= a.at < from + cfg(key).window && a.id !in s.orphans {
      assert Settled(cfg, s, a) && MadeBy(s, a);
      ids := ids + {a.id};
      forall b | b in s.log && b.key == key && from <= b.at < from + cfg(key).window
        ensures b.id in ids
      {
        assert Settled(cfg, s, b) && MadeBy(s, b);
        var i :| 0 <= i < |s.log| && s.log[i] == a;
        var j :| 0 <= j < |s.log| && s.log[j] == b;
        if i < j { assert Apart(cfg, s, s.log[i], s.log[j]); }
        if j < i { assert Apart(cfg, s, s.log[j], s.log[i]); }
      }
    } else {
      forall b | b in s.log && b.key == key && from <= b.at < from + cfg(key).window
        ensures b.id in ids
      {
        assert Settled(cfg, s, b) && MadeBy(s, b);
      }
    }
  }

  /** In every interleaving, a key admits at most limit * (1 + orphans) requests in any window... */
  lemma KeyBounded(cfg: string -> RateConfig, clock: int, steps: seq<Step>, key: string, from: int)
    requires ShortWindow(cfg, key) && CanRun(cfg, Start(clock), steps)
    ensures var s := Run(cfg, Start(clock), steps);
            CountIn(StampsOfKey(s.log, key), from, cfg(key).window) <= Cap(cfg(key).limit) * (1 + |OrphansOf(s, key)|)
  {
    StartKeepsInv(cfg, clock, key);
    RunKeepsInv(cfg, Start(clock), steps, key);
    StoreBounded(cfg, Run(cfg, Start(clock), steps), key, from);
  }

  lemma StoreBounded(cfg: string -> RateConfig, s: Store, key: string, from: int)
    requires Inv(cfg, s, key)
    ensures CountIn(StampsOfKey(s.log, key), from, cfg(key).window) <= Cap(cfg(key).limit) * (1 + |OrphansOf(s, key)|)
  {
    var span, cap := cfg(key).window, Cap(cfg(key).limit);
    var ids := ServingEntries(cfg, s, key, from);
    forall id | id in ids ensures CountIn(StampsOf(s.log, id), from, span) <= cap { EntryCount(cfg, s, id, from); }
    KeyCountIsCountBy(s.log, key, ids, from, span);
    CountByBounded(s.log, key, ids, from, span, cap);
    Product(cap, |ids|, 1 + |OrphansOf(s, key)|);
  }

  lemma EntryCount(cfg: string -> RateConfig, s: Store, id: EntryId, from: int)
    requires id in s.heap && Inv(cfg, s, s.heap[id].key)
    ensures var c := cfg(s.heap[id].key); CountIn(StampsOf(s.log, id), from, c.window) <= Cap(c.limit)
  {
    assert EntryOk(cfg, s, id);
  }

  lemma Product(cap: nat, n: nat, m: nat)
    requires n <= m
    ensures cap * n <= cap * m
  {
  }

  /** ...so the limit is exact for a key none of whose entries was deleted while fetched. */
  lemma KeyBoundedWithoutOrphans(cfg: string -> RateConfig, clock: int, steps: seq<Step>, key: string)
    requires ShortWindow(cfg, key) && CanRun(cfg, Start(clock), steps)
    requires OrphansOf(Run(cfg, Start(clock), steps), key) == {}
    ensures Bounded(StampsOfKey(Run(cfg, Start(clock), steps).log, key), cfg(key))
  {
    forall from
      ensures CountIn(StampsOfKey(Run(cfg, Start(clock), steps).log, key), from, cfg(key).window) <= Cap(cfg(key).limit)
    {
      KeyBounded(cfg, clock, steps, key, from);
    }
  }

  // ---------- without orphans a decision is that of the full log of the key ----------

  lemma {:induction false} RecentByEntry(log: seq<Admission>, key: string, id: EntryId, now: int, window: int)
    requires forall i :: 0 <= i < |log| ==>
               (log[i].id == id ==> log[i].key == key)
                 && (log[i].key == key && log[i].id != id ==> window <= now - log[i].at)
    ensures Recent(StampsOfKey(log, key), now, window) == Recent(StampsOf(log, id), now, window)
  {
    if log != [] {
      var init, last := log[..|log| - 1], log[|log| - 1];
      RecentByEntry(init, key, id, now, window);
      RecentSnoc(StampsOfKey(init, key), last.at, now, window);
      RecentSnoc(StampsOf(init, id), last.at, now, window);
      assert StampsOfKey(init, key) + [] == StampsOfKey(init, key) && StampsOf(init, id) + [] == StampsOf(init, id);
    }
  }

  /** The admissions of the key by other entries have left the window. */
  lemma OthersAreOld(cfg: string -> RateConfig, s: Store, thread: Thread, now: int, key: string, i: nat)
    requires Inv(cfg, s, key) && Enabled(s, Decide(thread, now)) && s.heap[s.tickets[thread]].key == key
             && OrphansOf(s, key) == {}
    requires i < |s.log|
    ensures var a, id := s.log[i], s.tickets[thread];
            (a.id == id ==> a.key == key) && (a.key == key && a.id != id ==> cfg(key).window <= now - a.at)
  {
    var a, id := s.log[i], s.tickets[thread];
    assert a in s.log && MadeBy(s, a);
    assert id !in s.orphans by { assert id in s.orphans ==> id in OrphansOf(s, key); }
    if a.key == key && a.id != id {
      assert Settled(cfg, s, a);
      assert a.id in s.orphans ==> a.id in OrphansOf(s, key);
    }
  }

  lemma DecideSeesKey(cfg: string -> RateConfig, s: Store, thread: Thread, now: int, key: string)
    requires Inv(cfg, s, key) && Enabled(s, Decide(thread, now)) && s.heap[s.tickets[thread]].key == key
             && OrphansOf(s, key) == {}
    ensures Recent(s.heap[s.tickets[thread]].timestamps, now, cfg(key).window)
         == Recent(StampsOfKey(s.log, key), now, cfg(key).window)
  {
    var id, window := s.tickets[thread], cfg(key).window;
    assert EntryOk(cfg, s, id) && SameAt(s.heap[id].timestamps, StampsOf(s.log, id), now, window);
    forall i | 0 <= i < |s.log|
      ensures (s.log[i].id == id ==> s.log[i].key == key)
      ensures s.log[i].key == key && s.log[i].id != id ==> window <= now - s.log[i].at
    {
      OthersAreOld(cfg, s, thread, now, key, i);
    }
    RecentByEntry(s.log, key, id, now, window);
  }

  /** In every interleaving in which no entry of the key was deleted while fetched, every decision on the key is
      the one a limiter would take that has kept all admissions of the key. */
  lemma DecidesLikeFullLog(cfg: string -> RateConfig, clock: int, steps: seq<Step>, thread: Thread, now: int)
    requires CanRun(cfg, Start(clock), steps) && Enabled(Run(cfg, Start(clock), steps), Decide(thread, now))
    requires var s := Run(cfg, Start(clock), steps);
             ShortWindow(cfg, s.heap[s.tickets[thread]].key) && OrphansOf(s, s.heap[s.tickets[thread]].key) == {}
    ensures var s := Run(cfg, Start(clock), steps);
            var key := s.heap[s.tickets[thread]].key;
            var admits := |Recent(StampsOfKey(s.log, key), now, cfg(key).window)| < cfg(key).limit;
            Next(cfg, s, Decide(thread, now)).log == s.log + if admits then [Admission(key, s.tickets[thread], now)]
              else []
  {
    var s := Run(cfg, Start(clock), steps);
    var key := s.heap[s.tickets[thread]].key;
    StartKeepsInv(cfg, clock, key);
    RunKeepsInv(cfg, Start(clock), steps, key);
    DecideSeesKey(cfg, s, thread, now, key);
    assert s.log + [] == s.log;
  }

  lemma Cons(cfg: string -> RateConfig, s: Store, step: Step, rest: seq<Step>)
    requires Enabled(s, step) && CanRun(cfg, Next(cfg, s, step), rest)
    ensures CanRun(cfg, s, [step] + rest)
    ensures Run(cfg, s, [step] + rest) == Run(cfg, Next(cfg, s, step), rest)
  {
    assert ([step] + rest)[1..] == rest;
  }
}
