/** The in-memory sliding-window limiter (middlewares/mennanov_ratelimit.go).

    The store keeps a pruned stamp list per key; a background sweep drops stamps older
    than two minutes and deletes empty entries.  The reference limiter keeps every
    admission for ever.  For every run, with sweeps anywhere, both decide alike. */
module MemoryLimiter {
  import opened RateWindow

  type Table = map<string, seq<int>>

  datatype Op =
    | Request(key: string, limit: int, window: int, now: int)
    | Sweep(now: int)

  function Stamps(m: Table, key: string): seq<int> {
    if key in m then m[key] else []
  }

  // ---------- one step on values ----------

  predicate Allows(m: Table, key: string, limit: int, window: int, now: int) {
    |Recent(Stamps(m, key), now, window)| < limit
  }

  function AfterCheck(m: Table, key: string, limit: int, window: int, now: int): Table {
    var kept := Recent(Stamps(m, key), now, window);
    m[key := if |kept| < limit then kept + [now] else kept]
  }

  function AfterSweep(m: Table, now: int): Table {
    map key | key in m && Recent(m[key], now, HORIZON) != [] :: Recent(m[key], now, HORIZON)
  }

  function After(m: Table, op: Op): Table {
    match op
    case Request(key, limit, window, now) => AfterCheck(m, key, limit, window, now)
    case Sweep(now) => AfterSweep(m, now)
  }

  lemma CheckedTable(before: Table, m: Table, key: string, limit: int, window: int, now: int)
    requires m.Keys == before.Keys + {key} && forall k :: k in before && k != key ==> m[k] == before[k]
    requires var kept := Recent(Stamps(before, key), now, window);
             m[key] == kept + if Allows(before, key, limit, window, now) then [now] else []
    ensures m == AfterCheck(before, key, limit, window, now)
  {
    var kept := Recent(Stamps(before, key), now, window);
    assert kept + [] == kept;
  }

  // ---------- the store as the source has it ----------

  class RateLimitEntry {
    var timestamps: seq<int>

    constructor ()
      ensures timestamps == []
    {
      timestamps := [];
    }

    /** The critical section under entry.mu in checkLimit. */
    method Admit(limit: int, window: int, now: int) returns (allowed: bool)
      modifies this
      ensures allowed == (|Recent(old(timestamps), now, window)| < limit)
      ensures timestamps == Recent(old(timestamps), now, window) + if allowed then [now] else []
    {
      timestamps := Prune(timestamps, now, window);
      if |timestamps| >= limit {
        return false;
      }
      timestamps := timestamps + [now];
      return true;
    }
  }

  class InMemoryStore {
    var items: map<string, RateLimitEntry>

    /** No two keys share an entry. */
    ghost predicate Valid()
      reads this
    {
      forall k1, k2 :: k1 in items && k2 in items && items[k1] == items[k2] ==> k1 == k2
    }

    ghost function Contents(): (m: Table)
      reads this, items.Values
    {
      map key | key in items :: items[key].timestamps
    }

    constructor ()
      ensures Valid() && Contents() == map[]
    {
      items := map[];
    }

    /** checkLimit: fetch or create the entry, then let it decide. */
    method CheckLimit(key: string, limit: int, window: int, now: int) returns (allowed: bool)
      requires Valid()
      modifies this, items.Values
      ensures Valid()
      ensures allowed == Allows(old(Contents()), key, limit, window, now)
      ensures Contents() == AfterCheck(old(Contents()), key, limit, window, now)
    {
      ghost var before := Contents();
      var entry := Fetch(key);
      assert Contents()[key] == entry.timestamps == Stamps(before, key);
      allowed := entry.Admit(limit, window, now);
      CheckedTable(before, Contents(), key, limit, window, now);
    }

    /** The critical section under s.mu in checkLimit. */
    method Fetch(key: string) returns (entry: RateLimitEntry)
      requires Valid()
      modifies this
      ensures Valid()
      ensures key in items && items[key] == entry
      ensures entry in old(items.Values) || fresh(entry)
      ensures items == old(items)[key := entry]
      ensures Contents() == old(Contents())[key := Stamps(old(Contents()), key)]
    {
      if key in items {
        entry := items[key];
      } else {
        entry := new RateLimitEntry();
        items := items[key := entry];
      }
    }

    /** The pass of the cleanup goroutine: every entry in turn, in any order. */
    method Cleanup(now: int)
      requires Valid()
      modifies this, items.Values
      ensures Valid()
      ensures Contents() == AfterSweep(old(Contents()), now)
    {
      ghost var start, before := items, Contents();
      var todo := items.Keys;
      while todo != {}
        invariant Swept(start, before, todo, now)
      {
        var key :| key in todo;
        SweepTurn(key, now, start, before, todo);
        todo := todo - {key};
      }
      SweptAll(start, before, now);
    }

    lemma SweptAll(start: map<string, RateLimitEntry>, before: Table, now: int)
      requires Swept(start, before, {}, now)
      ensures Contents() == AfterSweep(before, now)
    {
      forall k | k in start
        ensures k in Contents() <==> k in AfterSweep(before, now)
        ensures k in Contents() ==> Contents()[k] == AfterSweep(before, now)[k]
      {
        assert SweptOnce(k, start[k], before[k], {}, now);
      }
    }

    /** The entries in `todo` are as before the pass, the others have had their turn. */
    ghost predicate Swept(start: map<string, RateLimitEntry>, before: Table, todo: set<string>, now: int)
      reads this, start.Values
    {
      && todo <= items.Keys <= start.Keys && before.Keys == start.Keys
      && (forall k :: k in items ==> items[k] == start[k])
      && (forall k :: k in start ==> SweptOnce(k, start[k], before[k], todo, now))
    }

    method SweepTurn(key: string, now: int, ghost start: map<string, RateLimitEntry>, ghost before: Table,
                     ghost todo: set<string>)
      requires Swept(start, before, todo, now) && key in todo
      requires forall k1, k2 :: k1 in start && k2 in start && start[k1] == start[k2] ==> k1 == k2
      modifies this, items[key]
      ensures Swept(start, before, todo - {key}, now)
    {
      SweepEntry(key, now);
    }

    /** What the pass has done to the entry of `key` when `todo` is still to come. */
    ghost predicate SweptOnce(key: string, entry: RateLimitEntry, before: seq<int>, todo: set<string>, now: int)
      reads this, entry
    {
      if key in todo then entry.timestamps == before
      else entry.timestamps == Recent(before, now, HORIZON) && (key in items <==> entry.timestamps != [])
    }

    /** One turn of the cleanup loop, under entry.mu. */
    method SweepEntry(key: string, now: int)
      requires key in items
      modifies this, items[key]
      ensures old(items[key]).timestamps == Recent(old(items[key].timestamps), now, HORIZON)
      ensures items == if old(items[key]).timestamps == [] then old(items) - {key} else old(items)
    {
      var entry := items[key];
      entry.timestamps := Prune(entry.timestamps, now, HORIZON);
      if |entry.timestamps| == 0 {
        items := items - {key};
      }
    }
  }

  /** The filtering loop both critical sections run. */
  method Prune(timestamps: seq<int>, now: int, window: int) returns (valid: seq<int>)
    ensures valid == Recent(timestamps, now, window)
  {
    valid := [];
    for i := 0 to |timestamps|
      invariant valid == Recent(timestamps[..i], now, window)
    {
      RecentSnoc(timestamps[..i], timestamps[i], now, window);
      assert timestamps[..i + 1] == timestamps[..i] + [timestamps[i]];
      if now - timestamps[i] < window {
        valid := valid + [timestamps[i]];
      }
    }
    assert timestamps[..|timestamps|] == timestamps;
  }

  // ---------- whole runs ----------

  function Answer(m: Table, op: Op): seq<bool> {
    match op
    case Request(key, limit, window, now) => [Allows(m, key, limit, window, now)]
    case Sweep(_) => []
  }

  /** The stamp `op` adds to the admissions of `key`, if any. */
  function Gain(m: Table, op: Op, key: string): seq<int> {
    match op
    case Request(k, limit, window, now) => if k == key && Allows(m, k, limit, window, now) then [now] else []
    case Sweep(_) => []
  }

  /** What the store answers to the requests of a run. */
  function Decisions(m: Table, ops: seq<Op>): seq<bool>
    decreases |ops|
  {
    if ops == [] then [] else Answer(m, ops[0]) + Decisions(After(m, ops[0]), ops[1..])
  }

  /** The stamps of the requests for `key` that the store admits. */
  function Admitted(m: Table, ops: seq<Op>, key: string): seq<int>
    decreases |ops|
  {
    if ops == [] then [] else Gain(m, ops[0], key) + Admitted(After(m, ops[0]), ops[1..], key)
  }

  /** The reference limiter: it forgets nothing and has no sweep. */
  function Record(log: Table, op: Op): Table {
    match op
    case Request(key, limit, window, now) =>
      if Allows(log, key, limit, window, now) then log[key := Stamps(log, key) + [now]] else log
    case Sweep(_) => log
  }

  function FullLog(log: Table, ops: seq<Op>): Table
    decreases |ops|
  {
    if ops == [] then log else FullLog(Record(log, ops[0]), ops[1..])
  }

  function ReferenceDecisions(log: Table, ops: seq<Op>): seq<bool>
    decreases |ops|
  {
    if ops == [] then [] else Answer(log, ops[0]) + ReferenceDecisions(Record(log, ops[0]), ops[1..])
  }

  function Widest(widest: map<string, int>, key: string): int {
    if key in widest && widest[key] < HORIZON then widest[key] else HORIZON
  }

  function Narrow(widest: map<string, int>, op: Op): map<string, int> {
    if op.Request? then widest[op.key := op.window] else widest
  }

  /** The clock never goes back, and the windows asked of one key never grow and
      start at two minutes or less.  `widest` holds the last window of each key. */
  predicate Orderly(ops: seq<Op>, clock: int, widest: map<string, int>) {
    ops == [] ||
    (InOrder(ops[0], clock, widest) && Orderly(ops[1..], ops[0].now, Narrow(widest, ops[0])))
  }

  predicate InOrder(op: Op, clock: int, widest: map<string, int>) {
    clock <= op.now && (op.Request? ==> op.window <= Widest(widest, op.key))
  }

  ghost predicate Simulates(m: Table, log: Table, clock: int, widest: map<string, int>) {
    forall key :: SameView(Stamps(m, key), Stamps(log, key), clock, Widest(widest, key))
  }

  /** The same for one key: the clock never goes back and the key's windows never grow from `wide` on.
      Nothing is asked of other keys. */
  predicate KeyOrderly(ops: seq<Op>, clock: int, key: string, wide: int)
    decreases |ops|
  {
    ops == [] ||
    (KeyInOrder(ops[0], clock, key, wide) && KeyOrderly(ops[1..], ops[0].now, key, NextWide(ops[0], key, wide)))
  }

  predicate KeyInOrder(op: Op, clock: int, key: string, wide: int) {
    clock <= op.now && (op.Request? && op.key == key ==> op.window <= wide)
  }

  function NextWide(op: Op, key: string, wide: int): int {
    if op.Request? && op.key == key then op.window else wide
  }

  lemma RequestKeepsView(m: Table, log: Table, clock: int, wide: int, op: Op)
    requires op.Request? && SameView(Stamps(m, op.key), Stamps(log, op.key), clock, wide)
    requires clock <= op.now && op.window <= wide
    ensures SameView(Stamps(After(m, op), op.key), Stamps(Record(log, op), op.key), op.now, op.window)
    ensures Allows(m, op.key, op.limit, op.window, op.now) == Allows(log, op.key, op.limit, op.window, op.now)
  {
    var kept, full := Stamps(m, op.key), Stamps(log, op.key);
    assert SameAt(kept, full, op.now, op.window);
    PruneKeepsView(kept, full, clock, wide, op.now, op.window, op.now, op.window);
    SnocKeepsView(Recent(kept, op.now, op.window), full, op.now, op.window, op.now);
  }

  lemma SweepKeepsView(m: Table, log: seq<int>, clock: int, wide: int, now: int, key: string)
    requires SameView(Stamps(m, key), log, clock, wide) && wide <= HORIZON && clock <= now
    ensures SameView(Stamps(AfterSweep(m, now), key), log, now, wide)
  {
    PruneKeepsView(Stamps(m, key), log, clock, wide, now, HORIZON, now, wide);
    assert Stamps(AfterSweep(m, now), key) == Recent(Stamps(m, key), now, HORIZON);
  }

  lemma StepKeepsView(m: Table, log: Table, clock: int, wide: int, op: Op, key: string)
    requires SameView(Stamps(m, key), Stamps(log, key), clock, wide) && wide <= HORIZON
    requires KeyInOrder(op, clock, key, wide)
    ensures SameView(Stamps(After(m, op), key), Stamps(Record(log, op), key), op.now, NextWide(op, key, wide))
    ensures Gain(m, op, key) == Gain(log, op, key)
    ensures Stamps(Record(log, op), key) == Stamps(log, key) + Gain(m, op, key)
  {
    if op.Sweep? {
      SweepKeepsView(m, Stamps(log, key), clock, wide, op.now, key);
    } else if op.key == key {
      RequestKeepsView(m, log, clock, wide, op);
    } else {
      WaitKeepsView(Stamps(m, key), Stamps(log, key), clock, wide, op.now);
    }
  }

  lemma StepKeepsSimulation(m: Table, log: Table, clock: int, widest: map<string, int>, op: Op)
    requires Simulates(m, log, clock, widest) && InOrder(op, clock, widest)
    ensures Answer(m, op) == Answer(log, op)
    ensures Simulates(After(m, op), Record(log, op), op.now, Narrow(widest, op))
  {
    forall key
      ensures SameView(Stamps(After(m, op), key), Stamps(Record(log, op), key), op.now, Widest(Narrow(widest, op), key))
    {
      StepKeepsView(m, log, clock, Widest(widest, key), op, key);
    }
    if op.Request? {
      assert SameView(Stamps(m, op.key), Stamps(log, op.key), clock, Widest(widest, op.key));
      assert SameAt(Stamps(m, op.key), Stamps(log, op.key), op.now, op.window);
    }
  }

  /** The store and the reference give the same answers... */
  lemma {:induction false} DecisionsAgree(m: Table, log: Table, clock: int, widest: map<string, int>, ops: seq<Op>)
    requires Simulates(m, log, clock, widest) && Orderly(ops, clock, widest)
    ensures Decisions(m, ops) == ReferenceDecisions(log, ops)
    decreases |ops|
  {
    if ops != [] {
      StepKeepsSimulation(m, log, clock, widest, ops[0]);
      DecisionsAgree(After(m, ops[0]), Record(log, ops[0]), ops[0].now, Narrow(widest, ops[0]), ops[1..]);
    }
  }

  /** ...and record the same admissions. */
  lemma {:induction false} AdmissionsAgree(m: Table, log: Table, clock: int, ops: seq<Op>, key: string, wide: int)
    requires SameView(Stamps(m, key), Stamps(log, key), clock, wide) && wide <= HORIZON
             && KeyOrderly(ops, clock, key, wide)
    ensures Stamps(FullLog(log, ops), key) == Stamps(log, key) + Admitted(m, ops, key)
    decreases |ops|
  {
    if ops == [] {
      assert Stamps(log, key) + [] == Stamps(log, key);
    } else {
      StepKeepsView(m, log, clock, wide, ops[0], key);
      AdmissionsAgree(After(m, ops[0]), Record(log, ops[0]), ops[0].now, ops[1..], key, NextWide(ops[0], key, wide));
      AppendAssoc(Stamps(log, key), Gain(m, ops[0], key), Admitted(After(m, ops[0]), ops[1..], key));
    }
  }

  lemma AppendAssoc(a: seq<int>, b: seq<int>, c: seq<int>)
    ensures (a + b) + c == a + (b + c)
  {
  }

  /** Pruning, sweeps and entry deletion are invisible to every caller. */
  lemma RefinesFullLog(ops: seq<Op>, clock: int)
    requires Orderly(ops, clock, map[])
    ensures Decisions(map[], ops) == ReferenceDecisions(map[], ops)
  {
    DecisionsAgree(map[], map[], clock, map[], ops);
  }

  /** All requests for `key` use the same limit and window. */
  predicate Configured(ops: seq<Op>, key: string, cfg: RateConfig) {
    forall op :: op in ops && op.Request? && op.key == key ==> op.limit == cfg.limit && op.window == cfg.window
  }

  lemma {:induction false} FullLogBounded(log: Table, ops: seq<Op>, key: string, cfg: RateConfig)
    requires Bounded(Stamps(log, key), cfg) && Configured(ops, key, cfg)
    ensures Bounded(Stamps(FullLog(log, ops), key), cfg)
    decreases |ops|
  {
    if ops != [] {
      var op := ops[0];
      assert op in ops;
      if op.Request? && op.key == key && Allows(log, key, op.limit, op.window, op.now) {
        AdmitKeepsBound(Stamps(log, key), cfg, op.now);
      }
      FullLogBounded(Record(log, op), ops[1..], key, cfg);
    }
  }

  /** In every run the store admits at most `limit` requests of a key in any half-open window, if that
      key's window is at most two minutes. */
  lemma AdmissionsBounded(ops: seq<Op>, clock: int, key: string, cfg: RateConfig)
    requires KeyOrderly(ops, clock, key, HORIZON) && Configured(ops, key, cfg)
    ensures Bounded(Admitted(map[], ops, key), cfg)
  {
    AdmissionsAgree(map[], map[], clock, ops, key, HORIZON);
    assert Bounded(Stamps(map[], key), cfg) by { assert forall from :: CountIn([], from, cfg.window) == 0; }
    FullLogBounded(map[], ops, key, cfg);
    assert Stamps(FullLog(map[], ops), key) == Admitted(map[], ops, key);
  }

  function AfterAll(m: Table, ops: seq<Op>): Table
    decreases |ops|
  {
    if ops == [] then m else AfterAll(After(m, ops[0]), ops[1..])
  }

  lemma {:induction false} DecidesByLog(m: Table, log: Table, clock: int, ops: seq<Op>, wide: int, op: Op)
    requires op.Request? && SameView(Stamps(m, op.key), Stamps(log, op.key), clock, wide) && wide <= HORIZON
    requires KeyOrderly(ops + [op], clock, op.key, wide)
    ensures Allows(AfterAll(m, ops), op.key, op.limit, op.window, op.now)
            <==> Allows(FullLog(log, ops), op.key, op.limit, op.window, op.now)
    ensures KeyOrderly(ops, clock, op.key, wide)
    decreases |ops|
  {
    assert (ops + [op])[0] == if ops == [] then op else ops[0];
    if ops == [] {
      assert SameAt(Stamps(m, op.key), Stamps(log, op.key), op.now, op.window);
    } else {
      StepKeepsView(m, log, clock, wide, ops[0], op.key);
      assert (ops + [op])[1..] == ops[1..] + [op];
      DecidesByLog(After(m, ops[0]), Record(log, ops[0]), ops[0].now, ops[1..], NextWide(ops[0], op.key, wide), op);
    }
  }

  /** After every run a request is admitted exactly when fewer than `limit` admissions of its key lie in the window
      before it; what other keys did does not matter. */
  lemma AdmitsIff(ops: seq<Op>, clock: int, op: Op)
    requires op.Request? && KeyOrderly(ops + [op], clock, op.key, HORIZON)
    ensures Allows(AfterAll(map[], ops), op.key, op.limit, op.window, op.now)
            <==> |Recent(Admitted(map[], ops, op.key), op.now, op.window)| < op.limit
  {
    DecidesByLog(map[], map[], clock, ops, HORIZON, op);
    AdmissionsAgree(map[], map[], clock, ops, op.key, HORIZON);
    assert [] + Admitted(map[], ops, op.key) == Admitted(map[], ops, op.key);
  }

  lemma {:induction false} OrderlyForKey(ops: seq<Op>, clock: int, widest: map<string, int>, key: string)
    requires Orderly(ops, clock, widest)
    ensures KeyOrderly(ops, clock, key, Widest(widest, key))
    decreases |ops|
  {
    if ops != [] {
      OrderlyForKey(ops[1..], ops[0].now, Narrow(widest, ops[0]), key);
    }
  }

  // ---------- exactly which windows the sweep respects ----------

  /** The clock never goes back and every request asks for the same window. */
  predicate Uniform(ops: seq<Op>, window: int) {
    && (forall i, j :: 0 <= i <= j < |ops| ==> ops[i].now <= ops[j].now)
    && (forall op :: op in ops && op.Request? ==> op.window == window)
  }

  predicate SameAnswers(ops: seq<Op>) {
    Decisions(map[], ops) == ReferenceDecisions(map[], ops)
  }

  lemma {:induction false} UniformIsOrderly(ops: seq<Op>, clock: int, window: int, widest: map<string, int>)
    requires Uniform(ops, window) && window <= HORIZON
    requires ops != [] ==> clock <= ops[0].now
    requires forall key :: key in widest ==> widest[key] == window
    ensures Orderly(ops, clock, widest)
    decreases |ops|
  {
    if ops != [] {
      assert ops[0] in ops;
      UniformIsOrderly(ops[1..], ops[0].now, window, Narrow(widest, ops[0]));
    }
  }

  lemma StoreForgets(key: string, window: int)
    requires HORIZON < window
    ensures Decisions(map[], [Request(key, 1, window, 0), Sweep(HORIZON), Request(key, 1, window, HORIZON)])
            == [true, true]
  {
    var first, sweep, second := Request(key, 1, window, 0), Sweep(HORIZON), Request(key, 1, window, HORIZON);
    assert [first, sweep, second][1..] == [sweep, second] && [sweep, second][1..] == [second];
    var m1 := After(map[], first);
    assert [] + [0] == [0];
    assert m1[key] == [0];
    assert Recent([0], HORIZON, HORIZON) == [];
    var m2 := After(m1, sweep);
    assert m2 == map[];
    assert Decisions(m2, [second]) == [true] + Decisions(After(m2, second), []);
    assert Decisions(m1, [sweep, second]) == [] + Decisions(m2, [second]);
    assert Decisions(map[], [first, sweep, second]) == [true] + Decisions(m1, [sweep, second]);
  }

  lemma ReferenceRemembers(key: string, window: int)
    requires HORIZON < window
    ensures ReferenceDecisions(map[], [Request(key, 1, window, 0), Sweep(HORIZON), Request(key, 1, window, HORIZON)])
            == [true, false]
  {
    var first, sweep, second := Request(key, 1, window, 0), Sweep(HORIZON), Request(key, 1, window, HORIZON);
    assert [first, sweep, second][1..] == [sweep, second] && [sweep, second][1..] == [second];
    var log1 := Record(map[], first);
    assert Stamps(log1, key) == [] + [0] == [0] && Recent([0], HORIZON, window) == [0];
    assert ReferenceDecisions(log1, [second]) == [false] + ReferenceDecisions(log1, []);
    assert ReferenceDecisions(log1, [sweep, second]) == [] + ReferenceDecisions(log1, [second]);
    assert ReferenceDecisions(map[], [first, sweep, second]) == [true] + ReferenceDecisions(log1, [sweep, second]);
  }

  /** A window longer than two minutes lets the sweep forget a stamp that still counts. */
  lemma LongWindowForgets(key: string, window: int) returns (ops: seq<Op>)
    requires HORIZON < window
    ensures Uniform(ops, window)
    ensures Decisions(map[], ops) == [true, true] && ReferenceDecisions(map[], ops) == [true, false]
  {
    StoreForgets(key, window);
    ReferenceRemembers(key, window);
    ops := [Request(key, 1, window, 0), Sweep(HORIZON), Request(key, 1, window, HORIZON)];
  }

  /** The sweep is invisible for a window exactly when the window is two minutes or less. */
  lemma SweepInvisibleIff(window: int)
    ensures (forall ops: seq<Op> :: Uniform(ops, window) ==> SameAnswers(ops)) <==> window <= 120_000_000_000
  {
    if window <= HORIZON {
      forall ops: seq<Op> | Uniform(ops, window)
        ensures SameAnswers(ops)
      {
        var clock := if ops == [] then 0 else ops[0].now;
        UniformIsOrderly(ops, clock, window, map[]);
        RefinesFullLog(ops, clock);
      }
    } else {
      var ops := LongWindowForgets("", window);
      assert Decisions(map[], ops)[1] != ReferenceDecisions(map[], ops)[1];
      assert !SameAnswers(ops);
    }
  }

  // ---------- sweeps alone, whatever the windows of a key do ----------

  function NoSweeps(ops: seq<Op>): seq<Op> {
    if ops == [] then [] else (if ops[0].Sweep? then [] else [ops[0]]) + NoSweeps(ops[1..])
  }

  /** The clock never goes back and no window is longer than `widest`; windows may grow and shrink. */
  predicate Timely(ops: seq<Op>, clock: int, widest: int) {
    ops == [] ||
    (clock <= ops[0].now && (ops[0].Request? ==> ops[0].window <= widest) && Timely(ops[1..], ops[0].now, widest))
  }

  ghost predicate SameViews(a: Table, b: Table, clock: int) {
    forall key :: SameView(Stamps(a, key), Stamps(b, key), clock, HORIZON)
  }

  lemma RequestKeepsViews(a: Table, b: Table, clock: int, op: Op)
    requires SameViews(a, b, clock) && op.Request? && clock <= op.now && op.window <= HORIZON
    ensures Answer(a, op) == Answer(b, op) && SameViews(After(a, op), After(b, op), op.now)
  {
    assert SameView(Stamps(a, op.key), Stamps(b, op.key), clock, HORIZON);
    assert SameAt(Stamps(a, op.key), Stamps(b, op.key), op.now, op.window);
    forall key ensures SameView(Stamps(After(a, op), key), Stamps(After(b, op), key), op.now, HORIZON) {
      assert SameView(Stamps(a, key), Stamps(b, key), clock, HORIZON);
      WaitKeepsView(Stamps(a, key), Stamps(b, key), clock, HORIZON, op.now);
    }
  }

  lemma SweepKeepsViews(a: Table, b: Table, clock: int, now: int)
    requires SameViews(a, b, clock) && clock <= now
    ensures SameViews(AfterSweep(a, now), b, now)
  {
    forall key ensures SameView(Stamps(AfterSweep(a, now), key), Stamps(b, key), now, HORIZON) {
      assert SameView(Stamps(a, key), Stamps(b, key), clock, HORIZON);
      SweepKeepsView(a, Stamps(b, key), clock, HORIZON, now, key);
    }
  }

  /** Taking the sweeps out of a run changes no answer. */
  lemma {:induction false} SweepsDropOut(a: Table, b: Table, ops: seq<Op>, clock: int)
    requires SameViews(a, b, clock) && Timely(ops, clock, HORIZON)
    ensures Decisions(a, ops) == Decisions(b, NoSweeps(ops))
    decreases |ops|
  {
    if ops != [] {
      var op, rest := ops[0], ops[1..];
      if op.Sweep? {
        SweepKeepsViews(a, b, clock, op.now);
        SweepsDropOut(After(a, op), b, rest, op.now);
        assert [] + NoSweeps(rest) == NoSweeps(rest)
          && [] + Decisions(After(a, op), rest) == Decisions(After(a, op), rest);
      } else {
        RequestKeepsViews(a, b, clock, op);
        SweepsDropOut(After(a, op), After(b, op), rest, op.now);
        assert ([op] + NoSweeps(rest))[1..] == NoSweeps(rest);
      }
    }
  }

  ghost predicate SweepFree(ops: seq<Op>, clock: int, widest: int) {
    Timely(ops, clock, widest) ==> Decisions(map[], ops) == Decisions(map[], NoSweeps(ops))
  }

  /** When each check runs without interruption, sweeps change no answer of any run with windows up to `widest`,
      also growing ones, exactly when `widest` is two minutes or less. */
  lemma SweepsDropOutIff(widest: int)
    ensures (forall ops, clock :: SweepFree(ops, clock, widest)) <==> widest <= HORIZON
  {
    if widest <= HORIZON {
      forall ops, clock ensures SweepFree(ops, clock, widest) {
        if Timely(ops, clock, widest) {
          TimelyWider(ops, clock, widest, HORIZON);
          SweepsDropOut(map[], map[], ops, clock);
        }
      }
    } else {
      var ops := SweepShows("", widest);
      assert !SweepFree(ops, 0, widest);
    }
  }

  lemma {:induction false} TimelyWider(ops: seq<Op>, clock: int, narrow: int, wide: int)
    requires Timely(ops, clock, narrow) && narrow <= wide
    ensures Timely(ops, clock, wide)
    decreases |ops|
  {
    if ops != [] {
      TimelyWider(ops[1..], ops[0].now, narrow, wide);
    }
  }

  lemma SweepShows(key: string, window: int) returns (ops: seq<Op>)
    requires HORIZON < window
    ensures Timely(ops, 0, window) && Decisions(map[], ops) != Decisions(map[], NoSweeps(ops))
  {
    var first, sweep, second := Request(key, 1, window, 0), Sweep(HORIZON), Request(key, 1, window, HORIZON);
    ops := [first, sweep, second];
    StoreForgets(key, window);
    assert ops[1..] == [sweep, second] && [sweep, second][1..] == [second] && [second][1..] == [];
    assert Timely([second], HORIZON, window) && Timely([sweep, second], 0, window);
    assert NoSweeps([second]) == [second] && NoSweeps([sweep, second]) == [] + [second] == [second];
    assert NoSweeps(ops) == [first] + [second] == [first, second];
    WithoutSweepRefused(key, window);
  }

  lemma WithoutSweepRefused(key: string, window: int)
    requires HORIZON < window
    ensures Decisions(map[], [Request(key, 1, window, 0), Request(key, 1, window, HORIZON)]) == [true, false]
  {
    var first, second := Request(key, 1, window, 0), Request(key, 1, window, HORIZON);
    assert [first, second][1..] == [second];
    var m1 := After(map[], first);
    assert [] + [0] == [0];
    assert m1[key] == [0] && Recent([0], HORIZON, window) == [0];
    assert Decisions(m1, [second]) == [false] + Decisions(After(m1, second), []);
    assert Decisions(map[], [first, second]) == [true] + Decisions(m1, [second]);
  }
}
